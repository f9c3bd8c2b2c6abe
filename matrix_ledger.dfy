/**
 * What an instrumented allocator would record over the life of one dynamic matrix: how often
 * the spine (the array of row pointers) and the row buffers were allocated and released, how
 * many elements were constructed and destroyed, and how many operations were reached that
 * fail a debug assertion or have undefined behaviour.
 *
 * The lifecycle is given twice: as the constructor and destructor of `matrix_base` and
 * `matrix` are written, and as they are evidently meant to behave. The class in module
 * DynamicMatrix implements the intended one and keeps its ledger equal to these functions.
 */
module MatrixLedger {

  datatype Ledger = Ledger(
    spineAllocations: nat,
    spineReleases: nat,
    rowAllocations: nat,
    rowReleases: nat,
    constructions: nat,
    destructions: nat,
    faults: nat)

  /** Nothing allocated, constructed or released yet. */
  const Untouched: Ledger := Ledger(0, 0, 0, 0, 0, 0, 0)

  /** Everything acquired was released exactly as often, and nothing faulted. */
  predicate Balanced(l: Ledger) {
    && l.spineAllocations == l.spineReleases
    && l.rowAllocations == l.rowReleases
    && l.constructions == l.destructions
    && l.faults == 0
  }

  /**
   * The sized constructor as intended: no spine for zero rows; a spine and no rows for zero
   * columns; otherwise one spine, one buffer per row, and every element constructed.
   */
  function Constructed(rows: nat, columns: nat): Ledger {
    if rows == 0 then Untouched
    else if columns == 0 then Untouched.(spineAllocations := 1)
    else Ledger(1, 0, rows, 0, rows * columns, 0, 0)
  }

  /**
   * The destructor as intended: `destroy_all` destroys every element, then the row buffers
   * are released where they exist and the spine where it exists.
   */
  function TornDown(l: Ledger, rows: nat, columns: nat): Ledger {
    l.(destructions := l.destructions + rows * columns,
       rowReleases := l.rowReleases + (if columns > 0 then rows else 0),
       spineReleases := l.spineReleases + (if rows > 0 then 1 else 0))
  }

  /**
   * The sized constructor as written. The spine is allocated, and when there are columns
   * `allocate_matrix` allocates a second spine over the first. With rows but zero columns the
   * element fill walks the iterator whose bound wrapped (see
   * MatrixIterators.ZeroColumnsWalkRowZero) and writes through the uninitialised row pointer
   * of row 0: a fault.
   */
  function ConstructedAsWritten(rows: nat, columns: nat): Ledger {
    if rows == 0 then Untouched
    else if columns == 0 then Untouched.(spineAllocations := 1, faults := 1)
    else Ledger(2, 0, rows, 0, rows * columns, 0, 0)
  }

  /**
   * The destructor as written: `destroy_all`, then `deallocate_matrix`, which asserts a
   * non-null spine (a fault for zero rows), releases `space_rows_` row pointers (each of them
   * uninitialised when there are zero columns: one fault per row) and the spine.
   */
  function TornDownAsWritten(l: Ledger, rows: nat, columns: nat): Ledger {
    l.(destructions := l.destructions + rows * columns,
       rowReleases := l.rowReleases + rows,
       spineReleases := l.spineReleases + (if rows > 0 then 1 else 0),
       faults := l.faults + (if rows == 0 then 1 else 0) + (if columns == 0 then rows else 0))
  }

  /**
   * The intended lifecycle never leaks and never faults: the spine and every row buffer are
   * released exactly once, and every constructed element is destroyed exactly once.
   */
  lemma LifecycleBalanced(rows: nat, columns: nat)
    ensures Balanced(TornDown(Constructed(rows, columns), rows, columns))
    ensures TornDown(Constructed(rows, columns), rows, columns).spineAllocations == (if rows > 0 then 1 else 0)
    ensures TornDown(Constructed(rows, columns), rows, columns).rowAllocations == (if columns > 0 then rows else 0)
    ensures TornDown(Constructed(rows, columns), rows, columns).constructions == rows * columns
  {
  }

  /** As written, a matrix with rows and columns allocates two spines and releases one. */
  lemma SourceLeaksFirstSpine(rows: nat, columns: nat)
    requires rows > 0 && columns > 0
    ensures TornDownAsWritten(ConstructedAsWritten(rows, columns), rows, columns).spineAllocations == 2
    ensures TornDownAsWritten(ConstructedAsWritten(rows, columns), rows, columns).spineReleases == 1
    ensures !Balanced(TornDownAsWritten(ConstructedAsWritten(rows, columns), rows, columns))
  {
  }

  /** As written, destroying an empty matrix (default-constructed, or with zero rows) fails
      the assertion that the spine is non-null. */
  lemma SourceAssertsOnEmptyMatrix(columns: nat)
    ensures TornDownAsWritten(ConstructedAsWritten(0, columns), 0, columns).faults == 1
    ensures TornDownAsWritten(Untouched, 0, 0).faults == 1
  {
    assert ConstructedAsWritten(0, columns) == Untouched;
  }

  /** As written, a matrix with rows but zero columns writes through and then releases row
      pointers that were never allocated. */
  lemma SourceTouchesUnallocatedRows(rows: nat)
    requires rows > 0
    ensures ConstructedAsWritten(rows, 0).faults > 0
    ensures TornDownAsWritten(ConstructedAsWritten(rows, 0), rows, 0).rowReleases == rows
    ensures TornDownAsWritten(ConstructedAsWritten(rows, 0), rows, 0).rowAllocations == 0
  {
  }
}
