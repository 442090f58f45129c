/** The game parameters of sudoku.php: every board dimension is derived from
    the one field `rangeMax`, the largest symbol of the game. */
module SudokuGame {
  import opened Wrappers
  import Arith

  /** PHP's `range(lo, hi)`: the integers from lo to hi inclusive, counting
      down when lo > hi. */
  function Range(lo: int, hi: int): (r: seq<int>)
    ensures |r| == if lo <= hi then hi - lo + 1 else lo - hi + 1
    ensures forall i :: 0 <= i < |r| ==> r[i] == if lo <= hi then lo + i else lo - i
    decreases if lo <= hi then hi - lo else lo - hi
  {
    if lo == hi then [lo]
    else if lo < hi then [lo] + Range(lo + 1, hi)
    else [lo] + Range(lo - 1, hi)
  }

  /** m * m, written as a sum of odd numbers so that comparisons of squares
      stay linear. */
  function Square(m: nat): nat {
    if m == 0 then 0 else Square(m - 1) + 2 * m - 1
  }

  lemma {:induction false} SquareIsProduct(m: nat)
    ensures Square(m) == m * m
  {
    if m > 0 {
      SquareIsProduct(m - 1);
    }
  }

  lemma {:induction false} SquareMonotone(a: nat, b: nat)
    requires a <= b
    ensures Square(a) <= Square(b)
  {
    if a < b {
      SquareMonotone(a, b - 1);
    }
  }

  /** Counts k upwards while (k + 1)^2 still fits below x. */
  function SqrtFrom(x: nat, k: nat): (r: nat)
    requires Square(k) <= x
    ensures Square(r) <= x < Square(r + 1)
    decreases x - Square(k)
  {
    if Square(k + 1) <= x then SqrtFrom(x, k + 1) else k
  }

  /** The integer square root: the exact counterpart of `sqrt` followed by the
      integrality test of getBlockBorderLength. */
  function IntSqrt(x: nat): (r: nat)
    ensures Square(r) <= x < Square(r + 1)
  {
    SqrtFrom(x, 0)
  }

  /** The integer square root is the only candidate for an exact root. */
  lemma IntSqrtExact(x: nat, m: nat)
    requires Square(m) == x
    ensures IntSqrt(x) == m
  {
    var r := IntSqrt(x);
    assert Square(r) <= x < Square(r + 1);
    if r < m {
      SquareMonotone(r + 1, m);
      assert false;
    } else if m < r {
      SquareMonotone(m + 1, r);
      assert false;
    }
  }

  class Sudoku {
    /** The maximum number that can be used in the game. */
    var rangeMax: int

    constructor ()
      ensures rangeMax == 9
    {
      rangeMax := 9;
    }

    /** getAvailableNumbers: `range(1, rangeMax)`. */
    function AvailableNumbers(): (r: seq<int>)
      reads this
      ensures rangeMax >= 1 ==> |r| == rangeMax && forall i :: 0 <= i < |r| ==> r[i] == i + 1
      ensures rangeMax < 1 ==> |r| == 2 - rangeMax && forall i :: 0 <= i < |r| ==> r[i] == 1 - i
    {
      Range(1, rangeMax)
    }

    /** setMaxNumber: `empty(0)` holds in PHP, so 0 is refused; any other
        number replaces rangeMax and nothing else. */
    method SetMaxNumber(number: int) returns (r: Result<()>)
      modifies this
      ensures number == 0 ==> r == Err(InvalidNumber) && rangeMax == old(rangeMax)
      ensures number != 0 ==> r == Ok(()) && rangeMax == number
    {
      if number == 0 {
        return Err(InvalidNumber);
      }
      rangeMax := number;
      return Ok(());
    }

    /** getBoardBorderLength: the number of available symbols. */
    function BoardBorderLength(): (r: nat)
      reads this
      ensures r >= 1
      ensures rangeMax >= 1 ==> r == rangeMax
    {
      |AvailableNumbers()|
    }

    /** getBlockBorderLength: the square root of the symbol count, refused
        unless it is a whole number. */
    function BlockBorderLength(): (r: Result<nat>)
      reads this
      ensures r.Ok? <==> exists m: nat :: Square(m) == BoardBorderLength()
      ensures r.Ok? ==> r.value >= 1 && r.value * r.value == BoardBorderLength()
      ensures r.Err? ==> r.error == InvalidBorderLength
    {
      var count := |AvailableNumbers()|;
      var length := IntSqrt(count);
      if Square(length) != count then
        assert forall m: nat :: Square(m) == count ==> m == length by {
          forall m: nat | Square(m) == count {
            IntSqrtExact(count, m);
          }
        }
        Err(InvalidBorderLength)
      else
        SquareIsProduct(length);
        Ok(length)
    }

    /** getNumberBlockPerSide: board side divided by block side, which is the
        block side again. */
    function NumberBlockPerSide(): (r: Result<nat>)
      reads this
      ensures r.Ok? <==> BlockBorderLength().Ok?
      ensures r.Ok? ==> r.value * BlockBorderLength().value == BoardBorderLength()
      ensures r.Ok? ==> r.value == BlockBorderLength().value
      ensures r.Err? ==> r.error == InvalidBorderLength
    {
      var length :- BlockBorderLength();
      Arith.DivModUnique(BoardBorderLength(), length, length, 0);
      Ok(BoardBorderLength() / length)
    }

    /** getNumberOfSquaresOnBoard: the board side squared. */
    function NumberOfSquaresOnBoard(): (r: nat)
      reads this
      ensures rangeMax >= 1 ==> r == rangeMax * rangeMax
    {
      BoardBorderLength() * BoardBorderLength()
    }

    /** getNumberOfSquaresInBlock: a block holds one cell per symbol. */
    function NumberOfSquaresInBlock(): (r: nat)
      reads this
      ensures r == BoardBorderLength()
      ensures rangeMax >= 1 ==> r == rangeMax
    {
      |AvailableNumbers()|
    }
  }
}
