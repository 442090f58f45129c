/** The Sudoku rules as calculator.php checks them: a group of cells (a row,
    a column or a block) is acceptable when no non-zero symbol occurs twice in
    it, and a gameset is judged after it has been padded with '0' to the size
    of the board. The methods of calculator.php that walk the board are in
    calculator.dfy; this module holds the mathematical objects they compute. */
module Rules {
  import opened Wrappers
  import Arith
  import opened BoardLayout

  /** PHP's `array_filter` on single characters: every '0' is dropped. */
  function NonZero(row: seq<int>): (r: seq<int>)
    ensures |r| <= |row|
  {
    if row == [] then []
    else (if row[0] == 0 then [] else [row[0]]) + NonZero(row[1..])
  }

  /** The filter keeps exactly the symbols other than '0'. */
  lemma {:induction false} NonZeroMembers(row: seq<int>)
    ensures forall x :: x in NonZero(row) <==> x in row && x != 0
  {
    if row != [] {
      NonZeroMembers(row[1..]);
      assert row == [row[0]] + row[1..];
    }
  }

  /** The distinct values of a sequence: what `array_unique` keeps. */
  function Elements(xs: seq<int>): set<int> {
    set x | x in xs
  }

  /** checkRow, calculator.php:238-244: the filtered characters are as many
      as the distinct filtered characters. */
  predicate CheckRow(row: seq<int>) {
    |NonZero(row)| == |Elements(NonZero(row))|
  }

  /** No two entries of a sequence are equal. */
  predicate Distinct(xs: seq<int>) {
    forall i, j :: 0 <= i < j < |xs| ==> xs[i] != xs[j]
  }

  /** The Sudoku rule for one group: a symbol other than '0' occurs at most
      once. */
  predicate NoRepeats(row: seq<int>) {
    forall i, j :: 0 <= i < j < |row| && row[i] != 0 ==> row[i] != row[j]
  }

  /** A sequence has as many distinct values as entries exactly when no value
      repeats. */
  lemma {:induction false} ElementsCount(xs: seq<int>)
    ensures |Elements(xs)| <= |xs|
    ensures |Elements(xs)| == |xs| <==> Distinct(xs)
  {
    if xs != [] {
      var ys := xs[1..];
      ElementsCount(ys);
      DistinctCons(xs);
      assert xs == [xs[0]] + ys;
      assert Elements(xs) == {xs[0]} + Elements(ys);
      if xs[0] in ys {
        assert Elements(xs) == Elements(ys);
      } else {
        assert xs[0] !in Elements(ys);
      }
    }
  }

  /** A non-empty sequence repeats nothing exactly when its head does not
      occur in its tail and its tail repeats nothing. */
  lemma DistinctCons(xs: seq<int>)
    requires xs != []
    ensures Distinct(xs) <==> xs[0] !in xs[1..] && Distinct(xs[1..])
  {
    var ys := xs[1..];
    if xs[0] in ys {
      var j :| 0 <= j < |ys| && ys[j] == xs[0];
      assert xs[0] == xs[j + 1];
    } else if Distinct(ys) {
      forall i, j | 0 <= i < j < |xs| ensures xs[i] != xs[j] {
        if i > 0 {
          assert xs[i] == ys[i - 1] && xs[j] == ys[j - 1];
        } else {
          assert xs[j] == ys[j - 1];
        }
      }
    }
    if Distinct(xs) {
      forall i, j | 0 <= i < j < |ys| ensures ys[i] != ys[j] {
        assert ys[i] == xs[i + 1] && ys[j] == xs[j + 1];
      }
    }
  }

  /** Dropping the zeros leaves a repetition-free sequence exactly when the
      row repeats no non-zero symbol. */
  lemma {:induction false} NonZeroDistinct(row: seq<int>)
    ensures Distinct(NonZero(row)) <==> NoRepeats(row)
  {
    if row != [] {
      var x, rest := row[0], row[1..];
      NonZeroDistinct(rest);
      NonZeroMembers(rest);
      assert row == [x] + rest;
      if NoRepeats(row) {
        forall i, j | 0 <= i < j < |rest| && rest[i] != 0 ensures rest[i] != rest[j] {
          assert rest[i] == row[i + 1] && rest[j] == row[j + 1];
        }
        if x != 0 {
          forall k | 0 <= k < |rest| ensures rest[k] != x {
            assert rest[k] == row[k + 1];
          }
          assert x !in NonZero(rest);
        }
      }
      if Distinct(NonZero(row)) {
        var tail := NonZero(rest);
        if x != 0 {
          assert NonZero(row) == [x] + tail;
          forall i, j | 0 <= i < j < |tail| ensures tail[i] != tail[j] {
            assert tail[i] == NonZero(row)[i + 1] && tail[j] == NonZero(row)[j + 1];
          }
          forall k | 0 <= k < |tail| ensures tail[k] != x {
            assert NonZero(row)[0] == x && NonZero(row)[k + 1] == tail[k];
          }
        } else {
          assert NonZero(row) == tail;
        }
        forall i, j | 0 <= i < j < |row| && row[i] != 0 ensures row[i] != row[j] {
          if i > 0 {
            assert row[i] == rest[i - 1] && row[j] == rest[j - 1];
          } else {
            assert row[j] == rest[j - 1];
            assert row[j] in rest;
          }
        }
      }
    }
  }

  /** checkRow accepts a row exactly when it repeats no symbol other than
      '0'; zeros are ignored, so a row of zeros passes. */
  lemma CheckRowIffNoRepeats(row: seq<int>)
    ensures CheckRow(row) <==> NoRepeats(row)
  {
    ElementsCount(NonZero(row));
    NonZeroDistinct(row);
  }

  /** a is b with some of its cells turned back into '0'. */
  predicate Blanks(a: seq<int>, b: seq<int>) {
    |a| == |b| && forall i :: 0 <= i < |a| ==> a[i] == b[i] || a[i] == 0
  }

  /** Blanking cells of an acceptable group keeps it acceptable. */
  lemma BlankingKeepsRow(a: seq<int>, b: seq<int>)
    requires Blanks(a, b) && CheckRow(b)
    ensures CheckRow(a)
  {
    CheckRowIffNoRepeats(a);
    CheckRowIffNoRepeats(b);
  }

  /** PHP's `str_split(str, len)`: consecutive pieces of len characters, the
      last one possibly shorter; an empty string gives one empty piece. */
  function StrSplit(str: seq<int>, len: nat): (r: seq<seq<int>>)
    requires len >= 1
    ensures |r| >= 1
    decreases |str|
  {
    if |str| <= len then [str] else [str[..len]] + StrSplit(str[len..], len)
  }

  /** Cutting k * n characters into pieces of n gives k pieces, the b-th
      starting at n * b. */
  lemma {:induction false} StrSplitChunks(str: seq<int>, n: nat, k: nat)
    requires n >= 1 && k >= 1 && |str| == n * k
    ensures |StrSplit(str, n)| == k
    ensures forall b :: 0 <= b < k ==> n * b + n <= |str| && StrSplit(str, n)[b] == str[n * b .. n * b + n]
  {
    StrSplitCount(str, n, k);
    forall b | 0 <= b < k ensures n * b + n <= |str| && StrSplit(str, n)[b] == str[n * b .. n * b + n] {
      Arith.MulStep(n, b, k);
      StrSplitAt(str, n, b);
    }
  }

  lemma {:induction false} StrSplitCount(str: seq<int>, n: nat, k: nat)
    requires n >= 1 && k >= 1 && |str| == n * k
    ensures |StrSplit(str, n)| == k
    decreases k
  {
    if k > 1 {
      Arith.MulPred(n, k);
      Arith.MulMonotone(1, k - 1, n);
      StrSplitCount(str[n..], n, k - 1);
    }
  }

  /** The piece b of a split starts at n * b. */
  lemma {:induction false} StrSplitAt(str: seq<int>, n: nat, b: nat)
    requires n >= 1 && n * b + n <= |str|
    ensures b < |StrSplit(str, n)| && StrSplit(str, n)[b] == str[n * b .. n * b + n]
    decreases b
  {
    if b == 0 {
      assert n * b == 0;
    } else {
      Arith.MulPred(n, b);
      var m := n * (b - 1);
      var rest := str[n..];
      StrSplitAt(rest, n, b - 1);
      assert StrSplit(str, n) == [str[..n]] + StrSplit(rest, n);
      assert rest[m .. m + n] == str[n + m .. n + m + n];
    }
  }

  /** PHP's `str_repeat('0', k)`. */
  function Zeros(k: nat): (r: seq<int>)
    ensures |r| == k && forall i :: 0 <= i < k ==> r[i] == 0
  {
    seq(k, _ => 0)
  }

  /** The gameset extended with '0' to the full n * n cells, as checkRows does
      before judging it (calculator.php:213-216). */
  function Pad(g: Geometry, s: seq<int>): (r: seq<int>)
    requires g.Valid() && |s| <= g.n * g.n
    ensures |r| == g.n * g.n && r[..|s|] == s
    ensures forall i :: |s| <= i < |r| ==> r[i] == 0
  {
    s + Zeros(g.n * g.n - |s|)
  }

  /** The symbol of cell (r, c) of a full board. */
  function Cell(g: Geometry, board: seq<int>, r: int, c: int): int
    requires g.Valid() && |board| == g.n * g.n && 0 <= r < g.n && 0 <= c < g.n
  {
    CellIndexInRange(g, r, c);
    board[CellIndex(g, r, c)]
  }

  /** Row r of a full board, left to right. */
  function GridRow(g: Geometry, board: seq<int>, r: int): (row: seq<int>)
    requires g.Valid() && |board| == g.n * g.n && 0 <= r < g.n
    ensures |row| == g.n
  {
    seq(g.n, c requires 0 <= c < g.n => Cell(g, board, r, c))
  }

  /** The piece the walk of checkHorizontalRows takes from the b-th block of
      row i starts and ends inside the string. */
  lemma RowWalkBounds(g: Geometry, i: int, b: int)
    requires g.Valid() && 0 <= i < g.n && 0 <= b < g.s
    ensures 0 <= RowWalk(g, i, b, 0) && RowWalk(g, i, b, 0) + g.s <= g.n * g.n
    ensures g.s * b + g.s <= g.n
  {
    PairBelow(g, b, g.s - 1);
    RowWalkDistinct(g, i, b, 0, b, 0);
    RowWalkDistinct(g, i, b, g.s - 1, b, g.s - 1);
    assert RowWalk(g, i, b, 0) + (g.s - 1) == RowWalk(g, i, b, g.s - 1);
    Arith.MulStep(g.s, b, g.s);
  }

  /** The piece the walk of checkHorizontalRows takes from the b-th block of
      row i lies in the string and holds cells s * b .. s * b + s - 1 of the
      row. */
  lemma RowWalkPiece(g: Geometry, board: seq<int>, i: int, b: int, start: int)
    requires g.Valid() && |board| == g.n * g.n && 0 <= i < g.n && 0 <= b < g.s
    requires start == RowWalk(g, i, b, 0)
    ensures 0 <= start && start + g.s <= g.n * g.n
    ensures g.s * b + g.s <= g.n
    ensures board[start .. start + g.s] == GridRow(g, board, i)[g.s * b .. g.s * b + g.s]
  {
    RowWalkBounds(g, i, b);
    var whole, lo := GridRow(g, board, i), g.s * b;
    var piece, part := board[start .. start + g.s], whole[lo .. lo + g.s];
    forall k | 0 <= k < g.s
      ensures piece[k] == part[k]
    {
      RowWalkShift(g, i, b, k);
      RowWalkCell(g, board, i, b, k);
      assert piece[k] == board[start + k] && part[k] == whole[lo + k];
    }
    assert piece == part;
  }

  lemma RowWalkShift(g: Geometry, i: int, b: int, k: int)
    requires g.Valid()
    ensures RowWalk(g, i, b, k) == RowWalk(g, i, b, 0) + k
  {
  }

  /** The k-th cell the walk takes from block b of row i is cell s * b + k
      of the row. */
  lemma RowWalkCell(g: Geometry, board: seq<int>, i: int, b: int, k: int)
    requires g.Valid() && |board| == g.n * g.n && 0 <= i < g.n && 0 <= b < g.s && 0 <= k < g.s
    ensures 0 <= g.s * b + k < g.n && 0 <= RowWalk(g, i, b, k) < g.n * g.n
    ensures board[RowWalk(g, i, b, k)] == GridRow(g, board, i)[g.s * b + k]
  {
    PairBelow(g, b, k);
    RowWalkIsCell(g, i, b, k);
    CellIndexInRange(g, i, g.s * b + k);
  }

  /** Column c of a full board, top to bottom. */
  function GridColumn(g: Geometry, board: seq<int>, c: int): (column: seq<int>)
    requires g.Valid() && |board| == g.n * g.n && 0 <= c < g.n
    ensures |column| == g.n
  {
    seq(g.n, r requires 0 <= r < g.n => Cell(g, board, r, c))
  }

  /** Block b of a full board: the b-th run of n characters. */
  function GridBlock(g: Geometry, board: seq<int>, b: int): (block: seq<int>)
    requires g.Valid() && |board| == g.n * g.n && 0 <= b < g.n
    ensures |block| == g.n
  {
    Arith.AffineBelow(g.n, b, g.n - 1);
    board[g.n * b .. g.n * b + g.n]
  }

  /** What checkBlocks, checkHorizontalRows and checkVerticalRows accept
      together: every block, row and column passes checkRow. */
  predicate BoardOk(g: Geometry, board: seq<int>)
    requires g.Valid() && |board| == g.n * g.n
  {
    (forall b :: 0 <= b < g.n ==> CheckRow(GridBlock(g, board, b))) &&
    (forall r :: 0 <= r < g.n ==> CheckRow(GridRow(g, board, r))) &&
    (forall c :: 0 <= c < g.n ==> CheckRow(GridColumn(g, board, c)))
  }

  /** The three kinds of group checkRows inspects. */
  datatype Unit = BlockUnit | RowUnit | ColumnUnit

  /** Group i of the given kind. */
  function Group(g: Geometry, board: seq<int>, u: Unit, i: int): (group: seq<int>)
    requires g.Valid() && |board| == g.n * g.n && 0 <= i < g.n
    ensures |group| == g.n
  {
    match u
    case BlockUnit => GridBlock(g, board, i)
    case RowUnit => GridRow(g, board, i)
    case ColumnUnit => GridColumn(g, board, i)
  }

  /** The loops of checkBlocks, checkHorizontalRows and checkVerticalRows
      from group i on: each group must pass checkRow, and the first that
      fails ends the loop. */
  predicate AllFrom(g: Geometry, board: seq<int>, u: Unit, i: nat)
    requires g.Valid() && |board| == g.n * g.n
    decreases g.n - i
  {
    i >= g.n || (CheckRow(Group(g, board, u, i)) && AllFrom(g, board, u, i + 1))
  }

  /** The loop accepts exactly when every remaining group passes checkRow. */
  lemma {:induction false} AllFromIff(g: Geometry, board: seq<int>, u: Unit, i: nat)
    requires g.Valid() && |board| == g.n * g.n
    ensures AllFrom(g, board, u, i) <==> forall k :: i <= k < g.n ==> CheckRow(Group(g, board, u, k))
  {
    if AllFrom(g, board, u, i) {
      forall k | i <= k < g.n ensures CheckRow(Group(g, board, u, k)) {
        AllFromAt(g, board, u, i, k);
      }
    }
    if forall k :: i <= k < g.n ==> CheckRow(Group(g, board, u, k)) {
      AllFromEvery(g, board, u, i);
    }
  }

  /** A group the loop passes over on its way to acceptance is sound. */
  lemma {:induction false} AllFromAt(g: Geometry, board: seq<int>, u: Unit, i: nat, k: nat)
    requires g.Valid() && |board| == g.n * g.n
    requires AllFrom(g, board, u, i) && i <= k < g.n
    ensures CheckRow(Group(g, board, u, k))
    decreases k - i
  {
    if i < k {
      AllFromAt(g, board, u, i + 1, k);
    }
  }

  /** Sound groups from i on make the loop accept. */
  lemma {:induction false} AllFromEvery(g: Geometry, board: seq<int>, u: Unit, i: nat)
    requires g.Valid() && |board| == g.n * g.n
    requires forall k :: i <= k < g.n ==> CheckRow(Group(g, board, u, k))
    ensures AllFrom(g, board, u, i)
    decreases g.n - i
  {
    if i < g.n {
      AllFromEvery(g, board, u, i + 1);
    }
  }

  /** What checkRows computes for a full board: checkBlocks, then
      checkHorizontalRows, then checkVerticalRows. */
  predicate Accepted(g: Geometry, board: seq<int>)
    requires g.Valid() && |board| == g.n * g.n
  {
    AllFrom(g, board, BlockUnit, 0) && AllFrom(g, board, RowUnit, 0) && AllFrom(g, board, ColumnUnit, 0)
  }

  /** The three loops accept a board exactly when every block, row and column
      passes checkRow. */
  lemma AcceptedIffBoardOk(g: Geometry, board: seq<int>)
    requires g.Valid() && |board| == g.n * g.n
    ensures Accepted(g, board) <==> BoardOk(g, board)
  {
    AllFromIff(g, board, BlockUnit, 0);
    AllFromIff(g, board, RowUnit, 0);
    AllFromIff(g, board, ColumnUnit, 0);
    assert forall k :: 0 <= k < g.n ==> Group(g, board, BlockUnit, k) == GridBlock(g, board, k);
    assert forall k :: 0 <= k < g.n ==> Group(g, board, RowUnit, k) == GridRow(g, board, k);
    assert forall k :: 0 <= k < g.n ==> Group(g, board, ColumnUnit, k) == GridColumn(g, board, k);
  }

  /** checkRows, calculator.php:207-227: too long a gameset is an exception,
      any other is judged padded with '0'. */
  function Verdict(g: Geometry, s: seq<int>): (r: Result<bool>)
    requires g.Valid()
    ensures r.Err? <==> |s| > g.n * g.n
    ensures r.Err? ==> r.error == GamesetTooLong
  {
    if |s| > g.n * g.n then Err(GamesetTooLong) else Ok(Accepted(g, Pad(g, s)))
  }

  /** checkRows accepts a gameset that fits exactly when every block, row and
      column of the padded board passes checkRow. */
  lemma VerdictBoardOk(g: Geometry, s: seq<int>)
    requires g.Valid() && |s| <= g.n * g.n
    ensures Verdict(g, s) == Ok(BoardOk(g, Pad(g, s)))
  {
    AcceptedIffBoardOk(g, Pad(g, s));
  }

  /** Position k of block b is character n * b + k of the board. */
  lemma ChunkAt(g: Geometry, board: seq<int>, b: int, k: int)
    requires g.Valid() && |board| == g.n * g.n && 0 <= b < g.n && 0 <= k < g.n
    ensures 0 <= g.n * b + k < g.n * g.n
    ensures GridBlock(g, board, b)[k] == board[g.n * b + k]
  {
    Arith.AffineBelow(g.n, b, k);
    Arith.AffineBelow(g.n, b, g.n - 1);
  }

  /** The chunks of checkBlocks are the blocks of the block-major layout:
      block b holds exactly the cells (r, c) with BlockOf(r, c) == b, cell
      (r, c) sitting at position InnerOf(r, c). */
  lemma ChunkHoldsBlock(g: Geometry, board: seq<int>, r: int, c: int)
    requires g.Valid() && |board| == g.n * g.n && 0 <= r < g.n && 0 <= c < g.n
    ensures 0 <= BlockOf(g, r, c) < g.n && 0 <= InnerOf(g, r, c) < g.n
    ensures GridBlock(g, board, BlockOf(g, r, c))[InnerOf(g, r, c)] == Cell(g, board, r, c)
  {
    CellSplit(g, r, c);
    ChunkAt(g, board, BlockOf(g, r, c), InnerOf(g, r, c));
    CellIndexInRange(g, r, c);
  }

  /** Conversely every position of a chunk is a cell of that block. */
  lemma ChunkPositionIsCell(g: Geometry, board: seq<int>, b: int, k: int)
    requires g.Valid() && |board| == g.n * g.n && 0 <= b < g.n && 0 <= k < g.n
    ensures var idx := g.n * b + k;
      0 <= RowOfIndex(g, idx) < g.n && 0 <= ColumnOfIndex(g, idx) < g.n &&
      BlockOf(g, RowOfIndex(g, idx), ColumnOfIndex(g, idx)) == b &&
      InnerOf(g, RowOfIndex(g, idx), ColumnOfIndex(g, idx)) == k &&
      GridBlock(g, board, b)[k] == Cell(g, board, RowOfIndex(g, idx), ColumnOfIndex(g, idx))
  {
    var idx := g.n * b + k;
    ChunkAt(g, board, b, k);
    IndexEncodes(g, idx);
    var r, c := RowOfIndex(g, idx), ColumnOfIndex(g, idx);
    CellInChunk(g, r, c);
    Arith.DivModUnique(idx, g.n, b, k);
    assert CellIndex(g, r, c) == idx;
  }

  /** Two cells share a row, a column or a block. */
  predicate SameUnit(g: Geometry, r: int, c: int, r': int, c': int)
    requires g.Valid()
  {
    r == r' || c == c' || BlockOf(g, r, c) == BlockOf(g, r', c')
  }

  /** The rules of Sudoku stated over the grid itself, independently of how
      the string is walked: two different cells in one row, column or block
      never hold the same symbol other than '0'. */
  predicate Consistent(g: Geometry, board: seq<int>)
    requires g.Valid() && |board| == g.n * g.n
  {
    forall r, c, r', c' ::
      0 <= r < g.n && 0 <= c < g.n && 0 <= r' < g.n && 0 <= c' < g.n &&
      (r != r' || c != c') && SameUnit(g, r, c, r', c') && Cell(g, board, r, c) != 0
      ==> Cell(g, board, r, c) != Cell(g, board, r', c')
  }

  /** Accepted boards obey the rules. */
  lemma BoardOkConsistent(g: Geometry, board: seq<int>)
    requires g.Valid() && |board| == g.n * g.n && BoardOk(g, board)
    ensures Consistent(g, board)
  {
    forall r, c, r', c' |
      0 <= r < g.n && 0 <= c < g.n && 0 <= r' < g.n && 0 <= c' < g.n &&
      (r != r' || c != c') && SameUnit(g, r, c, r', c') && Cell(g, board, r, c) != 0
      ensures Cell(g, board, r, c) != Cell(g, board, r', c')
    {
      if r == r' {
        var row := GridRow(g, board, r);
        CheckRowIffNoRepeats(row);
        assert row[c] == Cell(g, board, r, c) && row[c'] == Cell(g, board, r, c');
        if c < c' {
          assert row[c] != row[c'];
        } else {
          assert row[c'] != 0 ==> row[c'] != row[c];
        }
      } else if c == c' {
        var column := GridColumn(g, board, c);
        CheckRowIffNoRepeats(column);
        assert column[r] == Cell(g, board, r, c) && column[r'] == Cell(g, board, r', c);
        if r < r' {
          assert column[r] != column[r'];
        } else {
          assert column[r'] != 0 ==> column[r'] != column[r];
        }
      } else {
        BlockClash(g, board, r, c, r', c');
      }
    }
  }

  /** The block case of BoardOkConsistent. */
  lemma BlockClash(g: Geometry, board: seq<int>, r: int, c: int, r': int, c': int)
    requires g.Valid() && |board| == g.n * g.n && BoardOk(g, board)
    requires 0 <= r < g.n && 0 <= c < g.n && 0 <= r' < g.n && 0 <= c' < g.n
    requires (r != r' || c != c') && BlockOf(g, r, c) == BlockOf(g, r', c')
    requires Cell(g, board, r, c) != 0
    ensures Cell(g, board, r, c) != Cell(g, board, r', c')
  {
    var b := BlockOf(g, r, c);
    ChunkHoldsBlock(g, board, r, c);
    ChunkHoldsBlock(g, board, r', c');
    CellSplit(g, r, c);
    CellSplit(g, r', c');
    CellIndexInjective(g, r, c, r', c');
    var k, k' := InnerOf(g, r, c), InnerOf(g, r', c');
    assert k != k';
    var block := GridBlock(g, board, b);
    CheckRowIffNoRepeats(block);
    if k < k' {
      assert block[k] != block[k'];
    } else {
      assert block[k'] != 0 ==> block[k'] != block[k];
    }
  }

  /** Boards that obey the rules are accepted. */
  lemma ConsistentBoardOk(g: Geometry, board: seq<int>)
    requires g.Valid() && |board| == g.n * g.n && Consistent(g, board)
    ensures BoardOk(g, board)
  {
    forall b | 0 <= b < g.n ensures CheckRow(GridBlock(g, board, b)) {
      var block := GridBlock(g, board, b);
      forall k, k' | 0 <= k < k' < g.n && block[k] != 0 ensures block[k] != block[k'] {
        ChunkPositionIsCell(g, board, b, k);
        ChunkPositionIsCell(g, board, b, k');
        var idx, idx' := g.n * b + k, g.n * b + k';
        var r, c := RowOfIndex(g, idx), ColumnOfIndex(g, idx);
        var r', c' := RowOfIndex(g, idx'), ColumnOfIndex(g, idx');
        assert SameUnit(g, r, c, r', c');
      }
      CheckRowIffNoRepeats(block);
    }
    forall r | 0 <= r < g.n ensures CheckRow(GridRow(g, board, r)) {
      var row := GridRow(g, board, r);
      forall c, c' | 0 <= c < c' < g.n && row[c] != 0 ensures row[c] != row[c'] {
        assert SameUnit(g, r, c, r, c');
      }
      CheckRowIffNoRepeats(row);
    }
    forall c | 0 <= c < g.n ensures CheckRow(GridColumn(g, board, c)) {
      var column := GridColumn(g, board, c);
      forall r, r' | 0 <= r < r' < g.n && column[r] != 0 ensures column[r] != column[r'] {
        assert SameUnit(g, r, c, r', c);
      }
      CheckRowIffNoRepeats(column);
    }
  }

  /** checkBlocks, checkHorizontalRows and checkVerticalRows together accept
      a board exactly when it obeys the rules of Sudoku. */
  lemma BoardOkIffConsistent(g: Geometry, board: seq<int>)
    requires g.Valid() && |board| == g.n * g.n
    ensures BoardOk(g, board) <==> Consistent(g, board)
  {
    if BoardOk(g, board) {
      BoardOkConsistent(g, board);
    }
    if Consistent(g, board) {
      ConsistentBoardOk(g, board);
    }
  }

  /** Blanking cells of an acceptable board keeps it acceptable: the
      monotonicity the search's completeness rests on. */
  lemma BlankingKeepsBoard(g: Geometry, a: seq<int>, b: seq<int>)
    requires g.Valid() && |b| == g.n * g.n && Blanks(a, b) && BoardOk(g, b)
    ensures BoardOk(g, a)
  {
    forall k | 0 <= k < g.n ensures CheckRow(GridBlock(g, a, k)) {
      Arith.AffineBelow(g.n, k, g.n - 1);
      BlankingKeepsRow(GridBlock(g, a, k), GridBlock(g, b, k));
    }
    forall r | 0 <= r < g.n ensures CheckRow(GridRow(g, a, r)) {
      forall c | 0 <= c < g.n ensures GridRow(g, a, r)[c] == GridRow(g, b, r)[c] || GridRow(g, a, r)[c] == 0 {
        CellIndexInRange(g, r, c);
      }
      BlankingKeepsRow(GridRow(g, a, r), GridRow(g, b, r));
    }
    forall c | 0 <= c < g.n ensures CheckRow(GridColumn(g, a, c)) {
      forall r | 0 <= r < g.n ensures GridColumn(g, a, c)[r] == GridColumn(g, b, c)[r] || GridColumn(g, a, c)[r] == 0 {
        CellIndexInRange(g, r, c);
      }
      BlankingKeepsRow(GridColumn(g, a, c), GridColumn(g, b, c));
    }
  }

  /** Padding preserves blanking. */
  lemma BlankingKeepsPad(g: Geometry, a: seq<int>, b: seq<int>)
    requires g.Valid() && |b| <= g.n * g.n && Blanks(a, b)
    ensures Blanks(Pad(g, a), Pad(g, b))
  {
    forall i | 0 <= i < g.n * g.n ensures Pad(g, a)[i] == Pad(g, b)[i] || Pad(g, a)[i] == 0 {
      if i < |a| {
        assert Pad(g, a)[i] == Pad(g, a)[..|a|][i];
        assert Pad(g, b)[i] == Pad(g, b)[..|b|][i];
      }
    }
  }

  /** checkRows keeps accepting a gameset when some of its cells are blanked. */
  lemma BlankingKeepsVerdict(g: Geometry, a: seq<int>, b: seq<int>)
    requires g.Valid() && Blanks(a, b) && Verdict(g, b) == Ok(true)
    ensures Verdict(g, a) == Ok(true)
  {
    BlankingKeepsPad(g, a, b);
    VerdictBoardOk(g, a);
    VerdictBoardOk(g, b);
    BlankingKeepsBoard(g, Pad(g, a), Pad(g, b));
  }

  /** checkRows accepts a gameset that fits the board exactly when the
      padded board obeys the rules of Sudoku. */
  lemma VerdictIffConsistent(g: Geometry, s: seq<int>)
    requires g.Valid()
    ensures Verdict(g, s).Ok? ==> (Verdict(g, s).value <==> Consistent(g, Pad(g, s)))
  {
    if |s| <= g.n * g.n {
      VerdictBoardOk(g, s);
      BoardOkIffConsistent(g, Pad(g, s));
    }
  }
}
