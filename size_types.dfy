/** The unsigned machine word both containers count in, and facts about row-major indexes. */
module SizeTypes {

  /** 2^64: arithmetic on `std::size_t` wraps modulo this value. */
  const WORD: int := 0x1_0000_0000_0000_0000

  /** A value of type `std::size_t`. */
  type SizeT = n: int | 0 <= n < WORD

  /** A product grows with either factor. */
  lemma MulMonotone(a: nat, b: nat, c: nat)
    requires a <= b
    ensures a * c <= b * c
  {
  }

  /** An index below `rows * columns` lies in one of the first `rows` rows. */
  lemma QuotientBelow(k: nat, rows: nat, columns: nat)
    requires columns > 0 && k < rows * columns
    ensures k / columns < rows
  {
    var q := k / columns;
    assert q * columns <= k;
    if q >= rows {
      MulMonotone(rows, q, columns);
    }
  }

  /** Row `row` of a `rows` by `columns` layout ends within the layout. */
  lemma RowEndBelow(row: nat, rows: nat, columns: nat)
    requires row < rows
    ensures row * columns + columns <= rows * columns
  {
    MulMonotone(row + 1, rows, columns);
  }

  /** One more row adds one row's worth of elements. */
  lemma MulSucc(n: int, c: int)
    ensures (n + 1) * c == n * c + c
  {
  }

  /** One row fewer removes one row's worth of elements. */
  lemma MulPred(n: int, c: int)
    ensures (n - 1) * c == n * c - c
  {
  }

  /** An index splits into whole rows and a column within the next row. */
  lemma RowColumnSplit(k: nat, columns: nat)
    requires columns > 0
    ensures k == (k / columns) * columns + k % columns && 0 <= k % columns < columns
  {
  }
}
