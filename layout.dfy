/** Where the cells of the board sit in the flat string.

    The string is block-major: block 0's n cells, then block 1's, and so on,
    each block row-major inside (the numbering drawn in painter.php). With n
    symbols and blocks of side s (n == s * s), the cell in row r and column c
    therefore sits at
        n * s * (r / s) + n * (c / s) + s * (r % s) + c % s.
    checkHorizontalRows and checkVerticalRows do not use that formula; they
    walk the string with their own stride arithmetic. This module states both
    and proves that the walks visit exactly the cells of one row or column. */
module BoardLayout {
  import Arith

  /** The two numbers every board dimension is derived from: the symbol count
      n (also the board side and the cells per block) and the block side s. */
  datatype Geometry = Geometry(n: nat, s: nat) {
    predicate Valid() {
      s >= 1 && n == s * s
    }
  }

  /** Which block (in the order blocks are stored) holds cell (r, c). */
  function BlockOf(g: Geometry, r: int, c: int): int
    requires g.Valid()
  {
    g.s * (r / g.s) + c / g.s
  }

  /** The position of cell (r, c) inside its block. */
  function InnerOf(g: Geometry, r: int, c: int): int
    requires g.Valid()
  {
    g.s * (r % g.s) + c % g.s
  }

  /** The index of cell (r, c) in the block-major string. */
  function CellIndex(g: Geometry, r: int, c: int): int
    requires g.Valid()
  {
    g.n * g.s * (r / g.s) + g.n * (c / g.s) + g.s * (r % g.s) + c % g.s
  }

  /** The row of the cell stored at idx. */
  function RowOfIndex(g: Geometry, idx: int): int
    requires g.Valid()
  {
    g.s * ((idx / g.n) / g.s) + (idx % g.n) / g.s
  }

  /** The column of the cell stored at idx. */
  function ColumnOfIndex(g: Geometry, idx: int): int
    requires g.Valid()
  {
    g.s * ((idx / g.n) % g.s) + (idx % g.n) % g.s
  }

  /** checkHorizontalRows, calculator.php:260-268: in row i, the k-th cell
      taken from the b-th block of the band. */
  function RowWalk(g: Geometry, i: int, b: int, k: int): int
    requires g.Valid()
  {
    i * g.s + (i / g.s) * (g.n * g.s - g.n) + g.n * b + k
  }

  /** checkVerticalRows, calculator.php:293-304: in column i, the cell taken
      on the b-th row. */
  function ColumnWalk(g: Geometry, i: int, b: int): int
    requires g.Valid()
  {
    i + (i / g.s) * (g.n - g.s) + b * g.s + (b / g.s) * (g.n * g.s - g.n)
  }

  /** j / s and j % s of a coordinate below n are both below s. */
  lemma SplitBelow(g: Geometry, j: nat)
    requires g.Valid() && j < g.n
    ensures j / g.s < g.s && j % g.s < g.s
    ensures j == g.s * (j / g.s) + j % g.s
  {
    Arith.DivBelow(j, g.s);
  }

  /** a * s + b with a, b < s stays below n. */
  lemma PairBelow(g: Geometry, a: nat, b: nat)
    requires g.Valid() && a < g.s && b < g.s
    ensures 0 <= g.s * a + b < g.n
  {
    Arith.MulMonotone(0, a, g.s);
    Arith.MulMonotone(a, g.s - 1, g.s);
    assert g.s * (g.s - 1) == g.n - g.s;
  }

  /** The cell index is the block's offset plus the position in the block,
      and both are below n. */
  lemma CellSplit(g: Geometry, r: nat, c: nat)
    requires g.Valid() && r < g.n && c < g.n
    ensures 0 <= BlockOf(g, r, c) < g.n && 0 <= InnerOf(g, r, c) < g.n
    ensures CellIndex(g, r, c) == g.n * BlockOf(g, r, c) + InnerOf(g, r, c)
  {
    SplitBelow(g, r);
    SplitBelow(g, c);
    PairBelow(g, r / g.s, c / g.s);
    PairBelow(g, r % g.s, c % g.s);
    Arith.MulDistributes(g.n, g.s, r / g.s, c / g.s);
  }

  /** Every cell of the n x n grid lies inside the n * n string. */
  lemma CellIndexInRange(g: Geometry, r: nat, c: nat)
    requires g.Valid() && r < g.n && c < g.n
    ensures 0 <= CellIndex(g, r, c) < g.n * g.n
  {
    CellSplit(g, r, c);
    Arith.AffineBelow(g.n, BlockOf(g, r, c), InnerOf(g, r, c));
  }

  /** Cutting the string into chunks of n: cell (r, c) lies in chunk
      BlockOf(r, c), at position InnerOf(r, c). */
  lemma CellInChunk(g: Geometry, r: nat, c: nat)
    requires g.Valid() && r < g.n && c < g.n
    ensures CellIndex(g, r, c) / g.n == BlockOf(g, r, c)
    ensures CellIndex(g, r, c) % g.n == InnerOf(g, r, c)
  {
    CellSplit(g, r, c);
    Arith.DivModUnique(CellIndex(g, r, c), g.n, BlockOf(g, r, c), InnerOf(g, r, c));
  }

  /** Reading the row and column back from the index of a cell. */
  lemma {:induction false} CellIndexDecodes(g: Geometry, r: nat, c: nat)
    requires g.Valid() && r < g.n && c < g.n
    ensures RowOfIndex(g, CellIndex(g, r, c)) == r
    ensures ColumnOfIndex(g, CellIndex(g, r, c)) == c
  {
    CellInChunk(g, r, c);
    SplitBelow(g, r);
    SplitBelow(g, c);
    Arith.DivModUnique(BlockOf(g, r, c), g.s, r / g.s, c / g.s);
    Arith.DivModUnique(InnerOf(g, r, c), g.s, r % g.s, c % g.s);
  }

  /** Cutting the string into chunks of n: index idx lies in chunk idx / n at
      position idx % n, both below n. */
  lemma IndexSplit(g: Geometry, idx: int)
    requires g.Valid() && 0 <= idx < g.n * g.n
    ensures 0 <= idx / g.n < g.n && 0 <= idx % g.n < g.n
    ensures idx == g.n * (idx / g.n) + idx % g.n
  {
    Arith.DivBelow(idx, g.n);
  }

  /** The cell in row s * a + t and column s * b + u lies in block s * a + b at
      position s * t + u. */
  lemma {:induction false} CellOfDigits(g: Geometry, a: int, b: int, t: int, u: int)
    requires g.Valid() && 0 <= a < g.s && 0 <= b < g.s && 0 <= t < g.s && 0 <= u < g.s
    ensures 0 <= g.s * a + t < g.n && 0 <= g.s * b + u < g.n
    ensures BlockOf(g, g.s * a + t, g.s * b + u) == g.s * a + b
    ensures InnerOf(g, g.s * a + t, g.s * b + u) == g.s * t + u
  {
    PairBelow(g, a, t);
    PairBelow(g, b, u);
    Arith.DivModUnique(g.s * a + t, g.s, a, t);
    Arith.DivModUnique(g.s * b + u, g.s, b, u);
  }

  /** Every index of the string is the index of exactly the cell read back
      from it: CellIndex is a bijection between the grid and the string. */
  lemma {:induction false} IndexEncodes(g: Geometry, idx: int)
    requires g.Valid() && 0 <= idx < g.n * g.n
    ensures 0 <= RowOfIndex(g, idx) < g.n && 0 <= ColumnOfIndex(g, idx) < g.n
    ensures CellIndex(g, RowOfIndex(g, idx), ColumnOfIndex(g, idx)) == idx
  {
    IndexSplit(g, idx);
    var blk, inner := idx / g.n, idx % g.n;
    SplitBelow(g, blk);
    SplitBelow(g, inner);
    CellOfDigits(g, blk / g.s, blk % g.s, inner / g.s, inner % g.s);
    var r, c := RowOfIndex(g, idx), ColumnOfIndex(g, idx);
    CellSplit(g, r, c);
  }

  /** Two different cells never share an index. */
  lemma CellIndexInjective(g: Geometry, r: nat, c: nat, r': nat, c': nat)
    requires g.Valid() && r < g.n && c < g.n && r' < g.n && c' < g.n
    ensures CellIndex(g, r, c) == CellIndex(g, r', c') <==> r == r' && c == c'
  {
    CellIndexDecodes(g, r, c);
    CellIndexDecodes(g, r', c');
  }

  /** The walk of checkHorizontalRows: the k-th cell of the b-th block it
      visits in row i is cell (i, s * b + k). */
  lemma {:induction false} RowWalkIsCell(g: Geometry, i: nat, b: nat, k: nat)
    requires g.Valid() && i < g.n && b < g.s && k < g.s
    ensures RowWalk(g, i, b, k) == CellIndex(g, i, g.s * b + k)
  {
    Arith.DivModUnique(g.s * b + k, g.s, b, k);
    Arith.RowWalkIdentity(g.n, g.s, i, i / g.s, i % g.s, b, k);
  }

  /** The walk of checkVerticalRows: the cell it visits on the b-th row of
      column i is cell (b, i). */
  lemma {:induction false} ColumnWalkIsCell(g: Geometry, i: nat, b: nat)
    requires g.Valid() && i < g.n && b < g.n
    ensures ColumnWalk(g, i, b) == CellIndex(g, b, i)
  {
    Arith.ColumnWalkIdentity(g.n, g.s, i, i / g.s, i % g.s, b, b / g.s, b % g.s);
  }

  /** The row walk visits n distinct indices, all inside the string. */
  lemma RowWalkDistinct(g: Geometry, i: nat, b: nat, k: nat, b': nat, k': nat)
    requires g.Valid() && i < g.n && b < g.s && k < g.s && b' < g.s && k' < g.s
    ensures 0 <= RowWalk(g, i, b, k) < g.n * g.n
    ensures RowWalk(g, i, b, k) == RowWalk(g, i, b', k') <==> b == b' && k == k'
  {
    RowWalkIsCell(g, i, b, k);
    RowWalkIsCell(g, i, b', k');
    PairBelow(g, b, k);
    PairBelow(g, b', k');
    CellIndexInRange(g, i, g.s * b + k);
    CellIndexInjective(g, i, g.s * b + k, i, g.s * b' + k');
    Arith.DivModUnique(g.s * b + k, g.s, b, k);
    Arith.DivModUnique(g.s * b' + k', g.s, b', k');
  }

  /** The column walk visits n distinct indices, all inside the string. */
  lemma ColumnWalkDistinct(g: Geometry, i: nat, b: nat, b': nat)
    requires g.Valid() && i < g.n && b < g.n && b' < g.n
    ensures 0 <= ColumnWalk(g, i, b) < g.n * g.n
    ensures ColumnWalk(g, i, b) == ColumnWalk(g, i, b') <==> b == b'
  {
    ColumnWalkIsCell(g, i, b);
    ColumnWalkIsCell(g, i, b');
    CellIndexInRange(g, b, i);
    CellIndexInjective(g, b, i, b', i);
  }

  /** Row r's walk and column c's walk meet in exactly one index: the one of
      cell (r, c). */
  lemma RowMeetsColumn(g: Geometry, r: nat, c: nat, b: nat, k: nat, j: nat)
    requires g.Valid() && r < g.n && c < g.n && b < g.s && k < g.s && j < g.n
    ensures RowWalk(g, r, b, k) == ColumnWalk(g, c, j) <==> j == r && g.s * b + k == c
    ensures RowWalk(g, r, c / g.s, c % g.s) == ColumnWalk(g, c, r) == CellIndex(g, r, c)
  {
    var c' := g.s * b + k;
    RowWalkIsCell(g, r, b, k);
    ColumnWalkIsCell(g, c, j);
    PairBelow(g, b, k);
    CellIndexInjective(g, r, c', j, c);
    assert RowWalk(g, r, b, k) == CellIndex(g, r, c');
    assert ColumnWalk(g, c, j) == CellIndex(g, j, c);
    SplitBelow(g, c);
    RowWalkIsCell(g, r, c / g.s, c % g.s);
    ColumnWalkIsCell(g, c, r);
  }
}
