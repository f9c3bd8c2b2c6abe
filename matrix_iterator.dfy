/**
 * The random-access iterator nested in the dynamic matrix (`matrix<T>::MatrixIterator`).
 *
 * The source iterator holds a pointer into the spine (the array of row pointers), the
 * current column and the last column index of a row. Here the pointer is the row index it
 * points at, relative to the first spine slot; like the pointer it may point one past the
 * last row (the `end` sentinel) or, after a decrement, before the first one.
 */
module MatrixIterators {
  import opened SizeTypes

  /** `(ptr_, currentColumn_, maxColumnIndex_)`, with `ptr_` given as a row index. */
  datatype Iterator = Iterator(row: int, column: SizeT, maxColumn: SizeT)

  /** The iterator's position lies inside a row: the column does not pass the bound. */
  predicate WellFormed(it: Iterator) {
    it.column <= it.maxColumn
  }

  /** `++n` on a `std::size_t`. */
  function Incr(n: SizeT): (r: SizeT)
    ensures n < WORD - 1 ==> r == n + 1
    ensures n == WORD - 1 ==> r == 0
  {
    if n == WORD - 1 then 0 else n + 1
  }

  /**
   * The private constructor `MatrixIterator(ptr, columnsCount)`: column 0 of `row`, with the
   * bound `columnsCount - 1` computed in `std::size_t`, so zero columns wrap to the largest size.
   */
  function Make(row: int, columnsCount: SizeT): (it: Iterator)
    ensures it.row == row && it.column == 0 && WellFormed(it)
    ensures columnsCount > 0 ==> it.maxColumn == columnsCount - 1
    ensures columnsCount == 0 ==> it.maxColumn == WORD - 1
  {
    Iterator(row, 0, (columnsCount - 1) % WORD)
  }

  /** `begin()` of a matrix with `columns` columns: the first column of the first row. */
  function BeginOf(columns: SizeT): (it: Iterator)
    ensures it.row == 0 && it.column == 0 && WellFormed(it)
  {
    Make(0, columns)
  }

  /** `end()` as the source writes it: column 0 of the row one past the last. */
  function EndOfAsWritten(rows: SizeT, columns: SizeT): (it: Iterator)
    ensures it.row == rows && it.column == 0 && WellFormed(it)
    ensures columns == 0 ==> it.maxColumn == WORD - 1
  {
    Make(rows, columns)
  }

  /**
   * `end()` as intended: the same sentinel, except that a matrix without columns, which holds
   * no element, has an empty range (`end() == begin()`).
   */
  function EndOf(rows: SizeT, columns: SizeT): (it: Iterator)
    ensures columns > 0 ==> it == EndOfAsWritten(rows, columns)
    ensures columns == 0 ==> it == BeginOf(columns)
  {
    if columns == 0 then BeginOf(columns) else Make(rows, columns)
  }

  /** The row-major position of an iterator: elements before it when rows hold `maxColumn + 1` elements. */
  function Position(it: Iterator): int {
    it.row * (it.maxColumn + 1) + it.column
  }

  /** `operator++`: the next column, or column 0 of the next row after the last column. */
  function Next(it: Iterator): Iterator {
    if it.column == it.maxColumn then Iterator(it.row + 1, 0, it.maxColumn)
    else Iterator(it.row, Incr(it.column), it.maxColumn)
  }

  /** `operator--`: the previous column, or the last column of the previous row from column 0. */
  function Prev(it: Iterator): Iterator {
    if it.column == 0 then Iterator(it.row - 1, it.maxColumn, it.maxColumn)
    else Iterator(it.row, it.column - 1, it.maxColumn)
  }

  /**
   * `it++` as intended: the copy `tmp` taken before the step (with the intended copy
   * constructor), together with the advanced iterator.
   */
  function PostIncrement(it: Iterator): (r: (Iterator, Iterator))
    requires WellFormed(it)
    ensures r.0 == it && WellFormed(r.1) && Prev(r.1) == r.0 && Less(r.0, r.1)
  {
    (Copy(it), Next(it))
  }

  /**
   * `it--` as intended: the copy `tmp` taken before the step (with the intended copy
   * constructor), together with the retreated iterator.
   */
  function PostDecrement(it: Iterator): (r: (Iterator, Iterator))
    requires WellFormed(it)
    ensures r.0 == it && WellFormed(r.1) && Next(r.1) == r.0 && Less(r.1, r.0)
  {
    (Copy(it), Prev(it))
  }

  /** `it++` as written: `tmp` comes from the copy constructor, which drops the column. */
  function PostIncrementAsWritten(it: Iterator): (Iterator, Iterator) {
    (CopyAsWritten(it), Next(it))
  }

  /** `it--` as written: `tmp` comes from the copy constructor, which drops the column. */
  function PostDecrementAsWritten(it: Iterator): (Iterator, Iterator) {
    (CopyAsWritten(it), Prev(it))
  }

  /**
   * The position `std::reverse_iterator::operator*` reads for a reverse iterator whose base is
   * `current`: a copy of `current`, decremented once, with the intended copy constructor.
   * It is the element just before the base.
   */
  function ReverseDeref(current: Iterator): (r: Iterator)
    ensures r == Prev(current)
  {
    Prev(Copy(current))
  }

  /** `std::reverse_iterator::operator*` as written: the copy drops the column before the decrement. */
  function ReverseDerefAsWritten(current: Iterator): Iterator {
    Prev(CopyAsWritten(current))
  }

  /** `operator==`: same row and same column; the bound is not compared. */
  predicate Equal(a: Iterator, b: Iterator) {
    a.row == b.row && a.column == b.column
  }

  /** `operator!=`. */
  predicate NotEqual(a: Iterator, b: Iterator) {
    !Equal(a, b)
  }

  /** `operator<`: the row first, the column as a tie-break. */
  predicate Less(a: Iterator, b: Iterator) {
    a.row < b.row || (a.row == b.row && a.column < b.column)
  }

  /** `operator>`. */
  predicate Greater(a: Iterator, b: Iterator) {
    a.row > b.row || (a.row == b.row && a.column > b.column)
  }

  /** `operator<=`, written in the source as the negation of `>`. */
  predicate LessEq(a: Iterator, b: Iterator) {
    !Greater(a, b)
  }

  /** `operator>=`, written in the source as the negation of `<`. */
  predicate GreaterEq(a: Iterator, b: Iterator) {
    !Less(a, b)
  }

  /**
   * `operator-` between iterators: the distance between the row pointers only, converted to
   * the iterator's `difference_type`, which the source declares as the unsigned `size_type`.
   */
  function Difference(a: Iterator, b: Iterator): (d: SizeT)
    ensures 0 <= a.row - b.row < WORD ==> d == a.row - b.row
    ensures -WORD < a.row - b.row < 0 ==> d == WORD + (a.row - b.row)
  {
    (a.row - b.row) % WORD
  }

  /** `it + n` as intended: `n` whole rows ahead, at column 0, keeping the row bound. */
  function Plus(it: Iterator, n: SizeT): Iterator {
    Iterator(it.row + n, 0, it.maxColumn)
  }

  /** `it - n` as intended: `n` whole rows back, at column 0, keeping the row bound. */
  function Minus(it: Iterator, n: SizeT): Iterator {
    Iterator(it.row - n, 0, it.maxColumn)
  }

  /** `it + n` as written: the bound is passed where a column count is expected. */
  function PlusAsWritten(it: Iterator, n: SizeT): Iterator {
    Make(it.row + n, it.maxColumn)
  }

  /** `it - n` as written: the bound is passed where a column count is expected. */
  function MinusAsWritten(it: Iterator, n: SizeT): Iterator {
    Make(it.row - n, it.maxColumn)
  }

  /** The copy constructor as written: it copies the row and the bound but not the column. */
  function CopyAsWritten(it: Iterator): Iterator {
    Iterator(it.row, 0, it.maxColumn)
  }

  /** The copy constructor as intended: all three fields are copied. */
  function Copy(it: Iterator): (r: Iterator)
    ensures Equal(r, it) && r.maxColumn == it.maxColumn
    ensures forall k: nat :: Advance(r, k) == Advance(it, k)
  {
    it
  }

  /** `k` applications of `operator++`. */
  function Advance(it: Iterator, k: nat): Iterator
    decreases k
  {
    if k == 0 then it else Next(Advance(it, k - 1))
  }

  /** `k` applications of `operator--`. */
  function Retreat(it: Iterator, k: nat): Iterator
    decreases k
  {
    if k == 0 then it else Prev(Retreat(it, k - 1))
  }

  // ---------------------------------------------------------------------------------------
  // Comparisons

  /** `<` is a strict total order on positions, `>` is its converse, and `<=`, `>=` are the
      reflexive closures up to `==`. */
  lemma OrderIsLexicographic(a: Iterator, b: Iterator, c: Iterator)
    ensures !Less(a, a)
    ensures Less(a, b) && Less(b, c) ==> Less(a, c)
    ensures Less(a, b) || Equal(a, b) || Less(b, a)
    ensures !(Less(a, b) && Less(b, a)) && !(Less(a, b) && Equal(a, b))
    ensures Greater(a, b) <==> Less(b, a)
    ensures LessEq(a, b) <==> Less(a, b) || Equal(a, b)
    ensures GreaterEq(a, b) <==> Greater(a, b) || Equal(a, b)
    ensures NotEqual(a, b) <==> Less(a, b) || Greater(a, b)
  {
  }

  // ---------------------------------------------------------------------------------------
  // Single steps

  /** `--` after `++`, and `++` after `--`, restore a well-formed position; both keep it
      well-formed and move it strictly forward, respectively backward. */
  lemma StepsAreInverse(it: Iterator)
    requires WellFormed(it)
    ensures WellFormed(Next(it)) && Prev(Next(it)) == it && Less(it, Next(it))
    ensures WellFormed(Prev(it)) && Next(Prev(it)) == it && Less(Prev(it), it)
  {
  }

  /** On a well-formed iterator `++` and `--` move the row-major position by exactly one element. */
  lemma StepsMoveOnePosition(it: Iterator)
    requires WellFormed(it)
    ensures Position(Next(it)) == Position(it) + 1
    ensures Position(Prev(it)) == Position(it) - 1
  {
    MulSucc(it.row, it.maxColumn + 1);
    MulPred(it.row, it.maxColumn + 1);
  }

  // ---------------------------------------------------------------------------------------
  // Traversal

  /** Stepping `a + b` times is stepping `a` times, then `b` times. */
  lemma {:induction false} AdvanceAdd(it: Iterator, a: nat, b: nat)
    ensures Advance(it, a + b) == Advance(Advance(it, a), b)
    decreases b
  {
    if b > 0 {
      AdvanceAdd(it, a, b - 1);
    }
  }

  /** Steps that stay within a row only move the column. */
  lemma {:induction false} AdvanceWithinRow(it: Iterator, j: nat)
    requires it.column + j <= it.maxColumn
    ensures Advance(it, j) == Iterator(it.row, it.column + j, it.maxColumn)
    decreases j
  {
    if j > 0 {
      AdvanceWithinRow(it, j - 1);
    }
  }

  /** From column 0, `q` whole rows of `maxColumn + 1` steps move `q` rows down, to column 0. */
  lemma {:induction false} AdvanceRows(row: int, maxColumn: SizeT, q: nat)
    ensures Advance(Iterator(row, 0, maxColumn), q * (maxColumn + 1)) == Iterator(row + q, 0, maxColumn)
    decreases q
  {
    if q > 0 {
      var start := Iterator(row, 0, maxColumn);
      AdvanceRows(row, maxColumn, q - 1);
      assert q * (maxColumn + 1) == (q - 1) * (maxColumn + 1) + maxColumn + 1;
      AdvanceAdd(start, (q - 1) * (maxColumn + 1), maxColumn + 1);
      AdvanceAdd(Iterator(row + q - 1, 0, maxColumn), maxColumn, 1);
      AdvanceWithinRow(Iterator(row + q - 1, 0, maxColumn), maxColumn);
    }
  }

  /** Every position reached by stepping a well-formed iterator is well-formed. */
  lemma {:induction false} AdvanceWellFormed(it: Iterator, k: nat)
    requires WellFormed(it)
    ensures WellFormed(Advance(it, k)) && Advance(it, k).maxColumn == it.maxColumn
    decreases k
  {
    if k > 0 {
      AdvanceWellFormed(it, k - 1);
    }
  }

  /**
   * Row-major traversal: with `columns > 0`, `k` increments from `begin()` reach row
   * `k / columns`, column `k % columns`.
   */
  lemma RowMajorTraversal(columns: SizeT, k: nat)
    requires columns > 0
    ensures Advance(BeginOf(columns), k) == Iterator(k / columns, k % columns, columns - 1)
  {
    RowColumnSplit(k, columns);
    var q, m := k / columns, k % columns;
    var whole := q * columns;
    var start, rowStart := BeginOf(columns), Iterator(q, 0, columns - 1);
    assert Advance(start, whole) == rowStart by {
      AdvanceRows(0, columns - 1, q);
    }
    AdvanceAdd(start, whole, m);
    AdvanceWithinRow(rowStart, m);
  }

  /** Stepping forward from a well-formed position moves strictly forward in `<`. */
  lemma {:induction false} AdvanceIncreases(it: Iterator, i: nat, j: nat)
    requires WellFormed(it) && i < j
    ensures Less(Advance(it, i), Advance(it, j))
    decreases j
  {
    AdvanceWellFormed(it, j - 1);
    StepsAreInverse(Advance(it, j - 1));
    if i < j - 1 {
      AdvanceIncreases(it, i, j - 1);
    }
  }

  /** The order of positions reached from a well-formed iterator is the order of step counts. */
  lemma TraversalIsOrdered(it: Iterator, i: nat, j: nat)
    requires WellFormed(it)
    ensures Less(Advance(it, i), Advance(it, j)) <==> i < j
  {
    if i < j {
      AdvanceIncreases(it, i, j);
    } else if j < i {
      AdvanceIncreases(it, j, i);
    }
  }

  /**
   * The whole range: `rows * columns` increments from `begin()` land on `end()`, every
   * earlier position lies strictly before `end()`, and `end()` is row `rows`, column 0.
   */
  lemma TraversalReachesEnd(rows: SizeT, columns: SizeT, k: nat)
    requires k < rows * columns
    ensures Advance(BeginOf(columns), rows * columns) == EndOf(rows, columns)
    ensures Less(Advance(BeginOf(columns), k), EndOf(rows, columns))
    ensures columns > 0 ==> EndOf(rows, columns).row == rows && EndOf(rows, columns).column == 0
  {
    AdvanceRows(0, columns - 1, rows);
    TraversalIsOrdered(BeginOf(columns), k, rows * columns);
  }

  /** With no elements (`rows * columns == 0`) the range is empty: `begin() == end()`. */
  lemma EmptyRange(rows: SizeT, columns: SizeT)
    requires rows * columns == 0
    ensures Advance(BeginOf(columns), rows * columns) == EndOf(rows, columns)
    ensures Equal(BeginOf(columns), EndOf(rows, columns))
  {
  }

  /**
   * Reverse traversal mirrors forward traversal: `k` decrements from `end()` land where
   * `rows * columns - k` increments from `begin()` do.
   */
  lemma {:induction false} ReverseTraversal(rows: SizeT, columns: SizeT, k: nat)
    requires columns > 0 && k <= rows * columns
    ensures Retreat(EndOf(rows, columns), k) == Advance(BeginOf(columns), rows * columns - k)
    decreases k
  {
    if k == 0 {
      AdvanceRows(0, columns - 1, rows);
    } else {
      ReverseTraversal(rows, columns, k - 1);
      AdvanceWellFormed(BeginOf(columns), rows * columns - k);
      StepsAreInverse(Advance(BeginOf(columns), rows * columns - k));
    }
  }

  /** The first element of a reverse traversal, `*--end()`, is the last one of the last row. */
  lemma ReverseBeginIsLastElement(rows: SizeT, columns: SizeT)
    requires rows > 0 && columns > 0
    ensures Prev(EndOf(rows, columns)) == Iterator(rows - 1, columns - 1, columns - 1)
    ensures Prev(EndOf(rows, columns)) == Advance(BeginOf(columns), rows * columns - 1)
  {
    ReverseTraversal(rows, columns, 1);
  }

  // ---------------------------------------------------------------------------------------
  // Row-granular arithmetic

  /**
   * Iterator difference counts rows, not elements: after `k` increments from `begin()` the
   * difference is `k / columns`, and `end() - begin()` is the number of rows.
   */
  lemma DifferenceIsRowGranular(rows: SizeT, columns: SizeT, k: nat)
    requires columns > 0 && k < rows * columns
    ensures Difference(Advance(BeginOf(columns), k), BeginOf(columns)) == k / columns
    ensures Difference(EndOf(rows, columns), BeginOf(columns)) == rows
  {
    var q := k / columns;
    assert q < rows by {
      QuotientBelow(k, rows, columns);
    }
    assert Advance(BeginOf(columns), k).row == q by {
      RowMajorTraversal(columns, k);
    }
  }

  /** `begin() - end()` does not go negative: the unsigned difference wraps. */
  lemma DifferenceWraps(rows: SizeT, columns: SizeT)
    requires rows > 0 && columns > 0
    ensures Difference(BeginOf(columns), EndOf(rows, columns)) == WORD - rows
  {
  }

  /**
   * `it + n` is row-granular: from column 0 it lands where `n * columns` increments do, and
   * `it - n` undoes it; their difference is `n`.
   */
  lemma OffsetIsRowGranular(row: int, columns: SizeT, n: SizeT)
    requires columns > 0
    ensures Plus(Make(row, columns), n) == Advance(Make(row, columns), n * columns)
    ensures Minus(Plus(Make(row, columns), n), n) == Make(row, columns)
    ensures Difference(Plus(Make(row, columns), n), Make(row, columns)) == n
  {
    AdvanceRows(row, columns - 1, n);
  }

  // ---------------------------------------------------------------------------------------
  // Defects of the source, exhibited on the as-written definitions

  /**
   * With zero columns the bound wraps to the largest `std::size_t`, so for a matrix with rows
   * the as-written `begin()` differs from `end()`, and the first 2^64 increments stay in row 0,
   * which holds no storage, walking its columns 0, 1, 2, ... The correction, an empty range,
   * also changes `end() - begin()` from `rows` to 0.
   */
  lemma ZeroColumnsWalkRowZero(rows: SizeT, k: nat)
    requires rows > 0 && k < WORD
    ensures NotEqual(BeginOf(0), EndOfAsWritten(rows, 0))
    ensures Advance(BeginOf(0), k) == Iterator(0, k, WORD - 1)
    ensures Difference(EndOfAsWritten(rows, 0), BeginOf(0)) == rows
    ensures Difference(EndOf(rows, 0), BeginOf(0)) == 0
  {
    AdvanceWithinRow(BeginOf(0), k);
  }

  /**
   * As written, `it + n` and `it - n` shrink the bound by one: after `maxColumn` increments the
   * result is already at the start of the following row, where the intended iterator is on the
   * last column of its row. With a bound of 0 (one column) the bound wraps instead.
   */
  lemma OffsetAsWrittenShrinksRow(it: Iterator, n: SizeT)
    requires it.maxColumn > 0
    ensures PlusAsWritten(it, n).maxColumn == it.maxColumn - 1
    ensures MinusAsWritten(it, n).maxColumn == it.maxColumn - 1
    ensures Advance(PlusAsWritten(it, n), it.maxColumn) == Iterator(it.row + n + 1, 0, it.maxColumn - 1)
    ensures Advance(Plus(it, n), it.maxColumn) == Iterator(it.row + n, it.maxColumn, it.maxColumn)
  {
    var w := PlusAsWritten(it, n);
    AdvanceAdd(w, it.maxColumn - 1, 1);
    AdvanceWithinRow(w, it.maxColumn - 1);
    AdvanceWithinRow(Plus(it, n), it.maxColumn);
  }

  /** As written, `it + n` on a one-column matrix gets the wrapped bound of a zero-column one. */
  lemma OffsetAsWrittenWrapsOnOneColumn(it: Iterator, n: SizeT)
    requires it.maxColumn == 0
    ensures PlusAsWritten(it, n).maxColumn == WORD - 1 && Plus(it, n).maxColumn == 0
  {
  }

  /** The as-written copy equals the original exactly when the original is at column 0. */
  lemma CopyAsWrittenLosesColumn(it: Iterator)
    ensures Equal(CopyAsWritten(it), it) <==> it.column == 0
    ensures Equal(Copy(it), it)
  {
  }

  /**
   * As written, `it++` and `it--` hand back a `tmp` at column 0 of the old row: the old
   * position only when the iterator was at column 0. The step itself is the intended one.
   */
  lemma PostStepsAsWrittenLoseColumn(it: Iterator)
    requires WellFormed(it)
    ensures PostIncrementAsWritten(it).0 == PostIncrement(it).0 <==> it.column == 0
    ensures PostDecrementAsWritten(it).0 == PostDecrement(it).0 <==> it.column == 0
    ensures PostIncrementAsWritten(it).1 == PostIncrement(it).1
    ensures PostDecrementAsWritten(it).1 == PostDecrement(it).1
  {
  }

  /**
   * As written, a reverse iterator reads the element before its base only when the base is at
   * column 0; otherwise it reads the last column of the previous row.
   */
  lemma ReverseDerefAsWrittenAgrees(current: Iterator)
    requires WellFormed(current)
    ensures ReverseDerefAsWritten(current) == ReverseDeref(current) <==> current.column == 0
    ensures ReverseDerefAsWritten(current) == Iterator(current.row - 1, current.maxColumn, current.maxColumn)
  {
  }

  /**
   * On a 2-by-3 matrix the as-written reverse traversal reads (1, 2), then (0, 2) where (1, 1)
   * is due, and its fifth element is read through row -1, before the spine.
   */
  lemma ReverseTraversalAsWrittenTwoByThree()
    ensures ReverseDerefAsWritten(Retreat(EndOfAsWritten(2, 3), 0)) == Iterator(1, 2, 2)
    ensures ReverseDerefAsWritten(Retreat(EndOfAsWritten(2, 3), 1)) == Iterator(0, 2, 2)
    ensures ReverseDeref(Retreat(EndOf(2, 3), 1)) == Iterator(1, 1, 2)
    ensures ReverseDerefAsWritten(Retreat(EndOfAsWritten(2, 3), 4)).row == -1
  {
    assert Retreat(EndOfAsWritten(2, 3), 1) == Iterator(1, 2, 2);
    assert Retreat(EndOfAsWritten(2, 3), 4) == Iterator(0, 2, 2);
  }

  /**
   * With the intended copy, the `k`-th element of the reverse traversal (base `--` applied
   * `k` times to `end()`) is element `rows * columns - 1 - k` of the forward traversal.
   */
  lemma ReverseDerefMirrors(rows: SizeT, columns: SizeT, k: nat)
    requires columns > 0 && k < rows * columns
    ensures ReverseDeref(Retreat(EndOf(rows, columns), k)) == Advance(BeginOf(columns), rows * columns - 1 - k)
  {
    ReverseTraversal(rows, columns, k + 1);
  }
}
