/**
 * The dynamic matrix: `matrix_base<T, A>` (storage, allocation, teardown, index checks) and
 * `matrix<T, A>` (fill construction, checked access, iteration, destruction).
 *
 * Storage is a spine, an array of row pointers, each pointing at a separately allocated row
 * buffer. A null spine stands for `elem_ == nullptr`, a null slot for a row pointer that was
 * never set. Releasing memory and ending an element's lifetime have no counterpart in Dafny:
 * they are ghost state (`spineLive`, `rowLive`, `live`) and counts (`ledger`).
 */
module DynamicMatrix {
  import opened Outcomes
  import opened SizeTypes
  import opened MatrixIterators
  import opened MatrixLedger

  /** The two `std::out_of_range` errors: a bad row index, a bad column index. */
  datatype RangeError = RowOutOfRange | ColumnOutOfRange

  /** The positions of the first `columns` elements of one row. */
  ghost function RowCells(row: int, columns: nat): set<(int, int)> {
    set c | 0 <= c < columns :: (row, c)
  }

  /** The positions of the first `rows` rows of a matrix with `columns` columns. */
  ghost function AllCells(rows: nat, columns: nat): set<(int, int)> {
    set r, c | 0 <= r < rows && 0 <= c < columns :: (r, c)
  }

  /** One more row adds that row's positions. */
  lemma AllCellsStep(rows: nat, columns: nat)
    ensures AllCells(rows + 1, columns) == AllCells(rows, columns) + RowCells(rows, columns)
  {
    forall cell | cell in AllCells(rows + 1, columns)
      ensures cell in AllCells(rows, columns) + RowCells(rows, columns)
    {
      if cell.0 < rows {
        assert cell in AllCells(rows, columns);
      } else {
        assert cell in RowCells(rows, columns);
      }
    }
  }

  /** The positions an iterator walking from the start has already passed. */
  ghost function Filled(it: Iterator, columns: nat): set<(int, int)>
    requires it.row >= 0
  {
    AllCells(it.row, columns) + RowCells(it.row, it.column)
  }

  /** One step of a walk from the start passes one more position and counts one more element. */
  lemma FillStep(it: Iterator, columns: nat)
    requires columns > 0 && it.maxColumn == columns - 1 && it.column < columns && it.row >= 0
    ensures Next(it).row >= 0
    ensures Filled(Next(it), columns) == Filled(it, columns) + {(it.row, it.column)}
    ensures Next(it).row * columns + Next(it).column == it.row * columns + it.column + 1
  {
    assert RowCells(it.row, it.column + 1) == RowCells(it.row, it.column) + {(it.row, it.column)};
    if it.column == it.maxColumn {
      AllCellsStep(it.row, columns);
      assert RowCells(it.row + 1, 0) == {};
    }
  }

  /** A `rows` by `columns` grid holding `value` everywhere. */
  function Uniform<T>(rows: nat, columns: nat, value: T): (g: seq<seq<T>>)
    ensures |g| == rows
    ensures forall r :: 0 <= r < rows ==> |g[r]| == columns
    ensures forall r, c :: 0 <= r < rows && 0 <= c < columns ==> g[r][c] == value
  {
    seq(rows, _ => seq(columns, _ => value))
  }

  class Matrix<T(0)> {
    /** `elem_`: the spine. */
    var elem: array?<array?<T>>
    /** `count_rows_`, `count_columns_`: the logical size. */
    var countRows: SizeT
    var countColumns: SizeT
    /** `space_rows_`, `space_columns_`: the allocated capacity. */
    var spaceRows: SizeT
    var spaceColumns: SizeT

    /** The elements, row by row. */
    ghost var Cells: seq<seq<T>>
    /** The spine and the row buffers. */
    ghost var Storage: set<object>
    /** The spine is allocated and not yet released. */
    ghost var spineLive: bool
    /** Per spine slot: its row buffer is allocated and not yet released. */
    ghost var rowLive: seq<bool>
    /** The positions whose elements are constructed and not yet destroyed. */
    ghost var live: set<(int, int)>
    /** What an instrumented allocator has recorded for this matrix so far. */
    ghost var ledger: Ledger

    /** The row buffers a spine points at. */
    static ghost function BuffersOf(spine: array?<array?<T>>): set<object>
      reads spine
    {
      if spine == null then {} else set r | 0 <= r < spine.Length && spine[r] != null :: spine[r] as object
    }

    /** The row buffers this matrix's spine points at. */
    ghost function RowBuffers(): set<object>
      reads this, elem
    {
      BuffersOf(elem)
    }

    /**
     * The layout of a spine holding `rows` slots of `columns` elements: a spine exactly when
     * there are rows, a buffer behind every slot exactly when there are columns, no buffer
     * shared by two rows, and `storage` made of the spine and the buffers.
     */
    static ghost predicate Layout(spine: array?<array?<T>>, rows: SizeT, columns: SizeT,
                                  storage: set<object>, rowLive: seq<bool>)
      reads spine
    {
      && (spine == null <==> rows == 0)
      && |rowLive| == rows
      && storage == (if spine == null then {} else {spine as object} + BuffersOf(spine))
      && (spine != null ==>
            && spine.Length == rows
            && (forall r :: 0 <= r < rows ==> (spine[r] != null <==> columns > 0))
            && (forall r :: 0 <= r < rows && spine[r] != null ==> spine[r].Length == columns)
            && (forall r :: 0 <= r < rows && spine[r] != null ==> spine[r] as object != spine)
            && (forall r, s :: 0 <= r < s < rows && spine[r] != null ==> spine[r] != spine[s]))
    }

    /**
     * The shape of the storage, which holds from construction to destruction. No operation
     * grows the capacity, so it equals the size.
     */
    ghost predicate Shaped()
      reads this, elem
    {
      && countRows == spaceRows && countColumns == spaceColumns
      && Layout(elem, spaceRows, spaceColumns, Storage, rowLive)
    }

    /** Storage exists and no element is constructed yet: the state after `matrix_base`'s constructor. */
    ghost predicate Allocated()
      reads this, elem
    {
      && Shaped()
      && spineLive == (elem != null)
      && (forall r :: 0 <= r < spaceRows ==> rowLive[r] == (spaceColumns > 0))
      && live == {}
      && ledger == Constructed(countRows, countColumns).(constructions := 0)
    }

    /**
     * A fully constructed matrix of `rows` by `columns` over `spine`: all storage live, every
     * element constructed, the elements equal to `cells`, and the ledger that of construction.
     */
    static ghost predicate Constructs(spine: array?<array?<T>>, rows: SizeT, columns: SizeT,
                                      cells: seq<seq<T>>, storage: set<object>, spineLive: bool,
                                      rowLive: seq<bool>, live: set<(int, int)>, ledger: Ledger)
      reads storage
    {
      && (spine != null ==> spine in storage)
      && Layout(spine, rows, columns, storage, rowLive)
      && spineLive == (spine != null)
      && (forall r :: 0 <= r < rows ==> rowLive[r] == (columns > 0))
      && live == AllCells(rows, columns)
      && |cells| == rows
      && (forall r :: 0 <= r < rows ==> |cells[r]| == columns)
      && (forall r :: 0 <= r < rows && columns > 0 ==> spine[r][..] == cells[r])
      && ledger == Constructed(rows, columns)
    }

    /** This matrix is fully constructed. */
    ghost predicate Valid()
      reads this, Storage
    {
      && countRows == spaceRows && countColumns == spaceColumns
      && Constructs(elem, countRows, countColumns, Cells, Storage, spineLive, rowLive, live, ledger)
    }

    /** `matrix(alloc)`: no spine, all sizes zero. */
    constructor Empty()
      ensures Valid() && Storage == {}
      ensures countRows == 0 && countColumns == 0 && spaceRows == 0 && spaceColumns == 0
      ensures Cells == []
    {
      elem := null;
      countRows, countColumns, spaceRows, spaceColumns := 0, 0, 0, 0;
      Cells, Storage := [], {};
      spineLive, rowLive, live := false, [], {};
      ledger := Untouched;
    }

    /**
     * `matrix(rows, columns, value)`: `matrix_base` allocates the storage, then every element
     * is constructed as a copy of `value`. The spine is allocated once, and for zero columns no
     * element is visited. `matrix(rows, columns)` is this constructor with `value` the
     * value-initialised `T{}`.
     */
    constructor (rows: SizeT, columns: SizeT, value: T)
      ensures Valid() && fresh(Storage)
      ensures countRows == rows && spaceRows == rows
      ensures countColumns == columns && spaceColumns == columns
      ensures Cells == Uniform(rows, columns, value)
    {
      countRows, countColumns := rows, columns;
      spaceRows, spaceColumns := rows, columns;
      elem := null;
      Cells, Storage := [], {};
      spineLive, rowLive, live := false, [], {};
      ledger := Untouched;
      new;
      AllocateStorage();
      UninitializedFill(value);
    }

    /**
     * The storage part of `matrix_base(rows, columns)`: for rows, a spine, and for columns also
     * a buffer behind every slot; nothing for zero rows. The spine is allocated once.
     */
    method AllocateStorage()
      requires countRows == spaceRows && countColumns == spaceColumns
      requires elem == null && Storage == {} && !spineLive && rowLive == [] && live == {} && ledger == Untouched
      modifies this`elem, this`spineLive, this`rowLive, this`Storage, this`ledger
      ensures Allocated() && fresh(Storage)
    {
      var rows, columns := spaceRows, spaceColumns;
      if rows > 0 {
        var spine: array<array?<T>>;
        if columns == 0 {
          spine := AllocateSpine();
        } else {
          spine := AllocateMatrix();
        }
        elem := spine;
        spineLive := true;
        rowLive := seq(rows, _ => columns > 0);
        Storage := {spine} + RowBuffers();
      }
    }

    /**
     * The storage part of `matrix_base(rows, columns)` as written: for rows, a spine; then,
     * for columns, `allocate_matrix`, whose fresh spine replaces the first one, which leaks.
     * The allocation counts are those of `ConstructedAsWritten`.
     */
    method AllocateStorageAsWritten()
      requires countRows == spaceRows && countColumns == spaceColumns
      requires elem == null && ledger == Untouched
      modifies this`elem, this`ledger
      ensures ledger.spineAllocations == ConstructedAsWritten(countRows, countColumns).spineAllocations
      ensures ledger.rowAllocations == ConstructedAsWritten(countRows, countColumns).rowAllocations
      ensures (elem == null) == (countRows == 0)
    {
      if countRows == 0 {
        return;
      }
      elem := AllocateSpine();
      if countColumns == 0 {
        return;
      }
      elem := AllocateMatrix();
    }

    /** `alloc_.allocate(space_rows_)`: a spine of `space_rows_` row pointers, none set. */
    method AllocateSpine() returns (spine: array<array?<T>>)
      modifies this`ledger
      ensures fresh(spine) && spine.Length == spaceRows
      ensures forall r :: 0 <= r < spine.Length ==> spine[r] == null
      ensures ledger == old(ledger).(spineAllocations := old(ledger).spineAllocations + 1)
    {
      spine := new array?<T>[spaceRows](_ => null);
      ledger := ledger.(spineAllocations := ledger.spineAllocations + 1);
    }

    /** `allocate_row`: an uninitialised buffer of `space_columns_` elements. */
    method AllocateRow() returns (buffer: array<T>)
      modifies this`ledger
      ensures fresh(buffer) && buffer.Length == spaceColumns
      ensures ledger == old(ledger).(rowAllocations := old(ledger).rowAllocations + 1)
    {
      buffer := new T[spaceColumns];
      ledger := ledger.(rowAllocations := ledger.rowAllocations + 1);
    }

    /** `allocate_matrix`: a spine with a distinct fresh row buffer behind every slot. */
    method AllocateMatrix() returns (spine: array<array?<T>>)
      modifies this`ledger
      ensures fresh(spine) && spine.Length == spaceRows
      ensures forall r :: 0 <= r < spaceRows ==> spine[r] != null && fresh(spine[r]) && spine[r].Length == spaceColumns
      ensures forall r, s :: 0 <= r < s < spaceRows ==> spine[r] != spine[s]
      ensures forall r :: 0 <= r < spaceRows ==> spine[r] as object != spine
      ensures ledger == old(ledger).(spineAllocations := old(ledger).spineAllocations + 1,
                                     rowAllocations := old(ledger).rowAllocations + spaceRows)
    {
      spine := AllocateSpine();
      var row := 0;
      while row < spaceRows
        invariant 0 <= row <= spaceRows
        invariant forall r :: 0 <= r < row ==> spine[r] != null && fresh(spine[r]) && spine[r].Length == spaceColumns
        invariant forall r, s :: 0 <= r < s < row ==> spine[r] != spine[s]
        invariant forall r :: 0 <= r < row ==> spine[r] as object != spine
        invariant ledger == old(ledger).(spineAllocations := old(ledger).spineAllocations + 1,
                                         rowAllocations := old(ledger).rowAllocations + row)
      {
        var buffer := AllocateRow();
        spine[row] := buffer;
        row := row + 1;
      }
    }

    /**
     * `std::uninitialized_fill(begin(), end(), value)` on freshly allocated storage: afterwards
     * every element is a constructed copy of `value` and the matrix is fully constructed.
     */
    method UninitializedFill(value: T)
      requires Allocated()
      modifies this`live, this`ledger, this`Cells, RowBuffers()
      ensures Valid() && Cells == Uniform(countRows, countColumns, value)
    {
      ConstructEach(value);
      Cells := Uniform(countRows, countColumns, value);
      forall r | 0 <= r < countRows && countColumns > 0
        ensures elem[r][..] == Cells[r]
      {
        assert forall c :: 0 <= c < countColumns ==> elem[r][c] == value;
      }
    }

    /**
     * The loop of `std::uninitialized_fill`: walks the storage with the matrix iterator from
     * `begin()` to `end()`, constructing a copy of `value` at each position, so every position
     * is constructed exactly once.
     */
    method ConstructEach(value: T)
      requires Allocated()
      modifies this`live, this`ledger, RowBuffers()
      ensures Shaped()
      ensures forall r, c :: 0 <= r < countRows && 0 <= c < countColumns ==> elem[r][c] == value
      ensures live == AllCells(countRows, countColumns)
      ensures ledger == Constructed(countRows, countColumns)
    {
      var it := Begin();
      var last := End();
      ghost var count: nat := 0;
      while NotEqual(it, last)
        invariant Shaped()
        invariant countColumns == 0 ==> it == last
        invariant countColumns > 0 ==> it.maxColumn == countColumns - 1 && it.column < countColumns
        invariant countColumns > 0 ==> 0 <= it.row <= countRows && (it.row == countRows ==> it.column == 0)
        invariant forall r, c :: 0 <= r < countRows && 0 <= c < countColumns && (r < it.row || (r == it.row && c < it.column))
                    ==> elem[r][c] == value
        invariant live == Filled(it, countColumns)
        invariant count == it.row * countColumns + it.column
        invariant ledger == Constructed(countRows, countColumns).(constructions := count)
        decreases countRows - it.row, countColumns - it.column
      {
        FillStep(it, countColumns);
        assert elem[it.row] in RowBuffers();
        ConstructAt(it.row, it.column, value);
        it := Next(it);
        count := count + 1;
      }
      if countColumns == 0 {
        assert AllCells(countRows, 0) == {};
      }
    }

    /** `construct(p, value)`: the element at one position begins its life as a copy of `value`. */
    method ConstructAt(row: int, column: int, value: T)
      requires Shaped() && 0 <= row < countRows && 0 <= column < countColumns
      modifies this`live, this`ledger, elem[row]
      ensures elem[row][column] == value
      ensures forall c :: 0 <= c < countColumns && c != column ==> elem[row][c] == old(elem[row][c])
      ensures live == old(live) + {(row, column)}
      ensures ledger == old(ledger).(constructions := old(ledger).constructions + 1)
    {
      elem[row][column] := value;
      live := live + {(row, column)};
      ledger := ledger.(constructions := ledger.constructions + 1);
    }

    /** `begin()`: column 0 of row 0. */
    function Begin(): Iterator
      reads this
    {
      BeginOf(countColumns)
    }

    /** `end()`, with an empty range when there are no columns. */
    function End(): Iterator
      reads this
    {
      EndOf(countRows, countColumns)
    }

    /** `*it`: the element at the iterator's position; no check is made. */
    function Deref(it: Iterator): (v: T)
      requires Valid() && 0 <= it.row < countRows && it.column < countColumns
      reads this, Storage
      ensures v == Cells[it.row][it.column]
    {
      elem[it.row][it.column]
    }

    /**
     * Forward iteration visits the elements in row-major order: after `k` increments from
     * `begin()` the iterator is inside the matrix, on row `k / count_columns_`, column
     * `k % count_columns_`.
     */
    lemma ForwardIterationIsRowMajor(k: nat)
      requires Valid() && k < countRows * countColumns
      ensures 0 <= Advance(Begin(), k).row < countRows && Advance(Begin(), k).column < countColumns
      ensures Deref(Advance(Begin(), k)) == Cells[k / countColumns][k % countColumns]
    {
      RowMajorTraversal(countColumns, k);
      QuotientBelow(k, countRows, countColumns);
    }

    /**
     * Reverse iteration mirrors forward iteration: after `k` increments of `rbegin()` the
     * reverse iterator's base is `k` decrements before `end()`, and it reads element
     * `rows * columns - 1 - k` of the forward traversal.
     */
    lemma ReverseIterationMirrors(k: nat)
      requires Valid() && k < countRows * countColumns
      ensures ReverseDeref(Retreat(End(), k)) == Advance(Begin(), countRows * countColumns - 1 - k)
      ensures 0 <= ReverseDeref(Retreat(End(), k)).row < countRows && ReverseDeref(Retreat(End(), k)).column < countColumns
      ensures Deref(ReverseDeref(Retreat(End(), k))) == Deref(Advance(Begin(), countRows * countColumns - 1 - k))
    {
      ReverseDerefMirrors(countRows, countColumns, k);
      ForwardIterationIsRowMajor(countRows * countColumns - 1 - k);
    }

    /** `count_rows()`. */
    function CountRows(): (n: SizeT)
      requires Valid()
      reads this, Storage
      ensures n == |Cells|
    {
      countRows
    }

    /** `count_columns()`. */
    function CountColumns(): (n: SizeT)
      requires Valid()
      reads this, Storage
      ensures forall r :: 0 <= r < |Cells| ==> |Cells[r]| == n
      ensures n > 0 ==> forall r :: 0 <= r < |Cells| ==> elem[r] != null && elem[r].Length == n
    {
      countColumns
    }

    /** `space_rows()`: the spine's capacity, equal to the row count. */
    function SpaceRows(): (n: SizeT)
      requires Valid()
      reads this, Storage
      ensures n == |Cells|
      ensures elem != null ==> n == elem.Length
    {
      spaceRows
    }

    /** `space_columns()`: each row buffer's capacity, equal to the column count. */
    function SpaceColumns(): (n: SizeT)
      requires Valid()
      reads this, Storage
      ensures n == CountColumns()
      ensures forall r :: 0 <= r < |Cells| && elem[r] != null ==> elem[r].Length == n
    {
      spaceColumns
    }

    /** `check_row_index`: throws exactly when the index is not below `count_rows_`. */
    function CheckRowIndex(index: SizeT): (r: Outcome<RangeError>)
      reads this
      ensures r == Pass <==> index < countRows
      ensures r != Pass ==> r == Fail(RowOutOfRange)
    {
      if index >= countRows then Fail(RowOutOfRange) else Pass
    }

    /** `check_column_index`: throws exactly when the index is not below `count_columns_`. */
    function CheckColumnIndex(index: SizeT): (r: Outcome<RangeError>)
      reads this
      ensures r == Pass <==> index < countColumns
      ensures r != Pass ==> r == Fail(ColumnOutOfRange)
    {
      if index >= countColumns then Fail(ColumnOutOfRange) else Pass
    }

    /** `check_indexes`: the row is checked first, then the column. */
    function CheckIndexes(row: SizeT, column: SizeT): (r: Outcome<RangeError>)
      reads this
      ensures r == Pass <==> row < countRows && column < countColumns
      ensures r == Fail(RowOutOfRange) <==> row >= countRows
      ensures r == Fail(ColumnOutOfRange) <==> row < countRows && column >= countColumns
    {
      match CheckRowIndex(row)
      case Fail(e) => Fail(e)
      case Pass => CheckColumnIndex(column)
    }

    /** `operator()(row, column)` read: the element, or the error `check_indexes` throws. */
    function Get(row: SizeT, column: SizeT): (r: Result<T, RangeError>)
      requires Valid()
      reads this, Storage
      ensures r.Ok? <==> row < countRows && column < countColumns
      ensures r.Ok? ==> r.value == Cells[row][column]
      ensures r == Err(RowOutOfRange) <==> row >= countRows
      ensures r == Err(ColumnOutOfRange) <==> row < countRows && column >= countColumns
    {
      match CheckIndexes(row, column)
      case Fail(e) => Err(e)
      case Pass => Ok(elem[row][column])
    }

    /** `operator()(row, column) = value`: the checked write through the returned reference. */
    method Set(row: SizeT, column: SizeT, value: T) returns (r: Outcome<RangeError>)
      requires Valid()
      modifies this`Cells, RowBuffers()
      ensures Valid()
      ensures r == CheckIndexes(row, column)
      ensures r == Pass ==> Cells == old(Cells)[row := old(Cells)[row][column := value]]
      ensures r != Pass ==> Cells == old(Cells)
    {
      r := CheckIndexes(row, column);
      if r == Pass {
        assert elem[row] in RowBuffers();
        elem[row][column] := value;
        Cells := Cells[row := Cells[row][column := value]];
      }
    }

    /**
     * `swap`: exchanges the spine pointer and the four size and capacity fields (and, in the
     * model, the ghost bookkeeping that belongs to the storage); no element moves.
     */
    method Swap(other: Matrix<T>)
      requires Valid() && other.Valid()
      modifies this, other
      ensures Valid() && other.Valid()
      ensures elem == old(other.elem) && other.elem == old(elem)
      ensures countRows == old(other.countRows) && other.countRows == old(countRows)
      ensures countColumns == old(other.countColumns) && other.countColumns == old(countColumns)
      ensures spaceRows == old(other.spaceRows) && other.spaceRows == old(spaceRows)
      ensures spaceColumns == old(other.spaceColumns) && other.spaceColumns == old(spaceColumns)
      ensures Cells == old(other.Cells) && other.Cells == old(Cells)
      ensures Storage == old(other.Storage) && other.Storage == old(Storage)
    {
      assert this !in Storage && other !in Storage;
      assert this !in other.Storage && other !in other.Storage;
      var e, rows, columns, sRows, sColumns := elem, countRows, countColumns, spaceRows, spaceColumns;
      ghost var cells, storage, spine, rowBuffers, cellsLive, l := Cells, Storage, spineLive, rowLive, live, ledger;
      Take(other.elem, other.countRows, other.countColumns, other.spaceRows, other.spaceColumns,
           other.Cells, other.Storage, other.spineLive, other.rowLive, other.live, other.ledger);
      other.Take(e, rows, columns, sRows, sColumns, cells, storage, spine, rowBuffers, cellsLive, l);
    }

    /** Overwrites every field: one half of `swap`. */
    method Take(e: array?<array?<T>>, rows: SizeT, columns: SizeT, sRows: SizeT, sColumns: SizeT,
                ghost cells: seq<seq<T>>, ghost storage: set<object>, ghost spine: bool,
                ghost rowBuffers: seq<bool>, ghost cellsLive: set<(int, int)>, ghost l: Ledger)
      modifies this
      ensures elem == e && countRows == rows && countColumns == columns
      ensures spaceRows == sRows && spaceColumns == sColumns
      ensures Cells == cells && Storage == storage && spineLive == spine
      ensures rowLive == rowBuffers && live == cellsLive && ledger == l
    {
      elem, countRows, countColumns, spaceRows, spaceColumns := e, rows, columns, sRows, sColumns;
      Cells, Storage, spineLive, rowLive, live, ledger := cells, storage, spine, rowBuffers, cellsLive, l;
    }

    /** `destroy_row`: ends the lifetime of the `count_columns_` elements of one row. */
    method DestroyRow(row: SizeT)
      requires elem != null && row < countRows
      requires RowCells(row, countColumns) <= live
      modifies this`live, this`ledger
      ensures live == old(live) - RowCells(row, countColumns)
      ensures ledger == old(ledger).(destructions := old(ledger).destructions + countColumns)
    {
      var column := 0;
      while column < countColumns
        invariant 0 <= column <= countColumns
        invariant live == old(live) - RowCells(row, column)
        invariant ledger == old(ledger).(destructions := old(ledger).destructions + column)
      {
        live := live - {(row, column)};
        ledger := ledger.(destructions := ledger.destructions + 1);
        column := column + 1;
      }
    }

    /** `destroy_matrix`: `destroy_row` for each row. */
    method DestroyMatrix()
      requires Shaped()
      requires AllCells(countRows, countColumns) <= live
      modifies this`live, this`ledger
      ensures live == old(live) - AllCells(countRows, countColumns)
      ensures ledger == old(ledger).(destructions := old(ledger).destructions + countRows * countColumns)
    {
      var row := 0;
      while row < countRows
        invariant 0 <= row <= countRows
        invariant live == old(live) - AllCells(row, countColumns)
        invariant ledger == old(ledger).(destructions := old(ledger).destructions + row * countColumns)
      {
        AllCellsStep(row, countColumns);
        DestroyRow(row);
        row := row + 1;
      }
    }

    /** `matrix::destroy_all`: the same teardown of every element, as two nested loops. */
    method DestroyAll()
      requires AllCells(countRows, countColumns) <= live
      modifies this`live, this`ledger
      ensures live == old(live) - AllCells(countRows, countColumns)
      ensures ledger == old(ledger).(destructions := old(ledger).destructions + countRows * countColumns)
    {
      var row := 0;
      while row < countRows
        invariant 0 <= row <= countRows
        invariant live == old(live) - AllCells(row, countColumns)
        invariant ledger == old(ledger).(destructions := old(ledger).destructions + row * countColumns)
      {
        AllCellsStep(row, countColumns);
        var column := 0;
        while column < countColumns
          invariant 0 <= column <= countColumns
          invariant live == old(live) - AllCells(row, countColumns) - RowCells(row, column)
          invariant ledger == old(ledger).(destructions := old(ledger).destructions + row * countColumns + column)
        {
          live := live - {(row, column)};
          ledger := ledger.(destructions := ledger.destructions + 1);
          column := column + 1;
        }
        row := row + 1;
      }
    }

    /** `deallocate_row`: releases one row buffer, whose elements must already be destroyed. */
    method DeallocateRow(row: SizeT)
      requires Shaped() && elem != null && row < countRows
      requires rowLive[row]
      requires RowCells(row, countColumns) !! live
      modifies this`rowLive, this`ledger
      ensures rowLive == old(rowLive)[row := false]
      ensures ledger == old(ledger).(rowReleases := old(ledger).rowReleases + 1)
    {
      rowLive := rowLive[row := false];
      ledger := ledger.(rowReleases := ledger.rowReleases + 1);
    }

    /** `destroy_and_deallocate_row`. */
    method DestroyAndDeallocateRow(row: SizeT)
      requires Shaped() && elem != null && row < countRows
      requires rowLive[row]
      requires RowCells(row, countColumns) <= live
      modifies this`live, this`rowLive, this`ledger
      ensures live == old(live) - RowCells(row, countColumns)
      ensures rowLive == old(rowLive)[row := false]
      ensures ledger == old(ledger).(destructions := old(ledger).destructions + countColumns,
                                     rowReleases := old(ledger).rowReleases + 1)
    {
      DestroyRow(row);
      DeallocateRow(row);
    }

    /** `destroy_and_deallocate_matrix`: every row, in order; the spine is left alone. */
    method DestroyAndDeallocateMatrix()
      requires Shaped()
      requires forall r :: 0 <= r < countRows ==> rowLive[r]
      requires AllCells(countRows, countColumns) <= live
      modifies this`live, this`rowLive, this`ledger
      ensures live == old(live) - AllCells(countRows, countColumns)
      ensures forall r :: 0 <= r < |rowLive| ==> !rowLive[r]
      ensures ledger == old(ledger).(destructions := old(ledger).destructions + countRows * countColumns,
                                     rowReleases := old(ledger).rowReleases + countRows)
    {
      var row := 0;
      while row < countRows
        invariant 0 <= row <= countRows && |rowLive| == countRows
        invariant live == old(live) - AllCells(row, countColumns)
        invariant forall r :: 0 <= r < countRows ==> rowLive[r] == (r >= row)
        invariant ledger == old(ledger).(destructions := old(ledger).destructions + row * countColumns,
                                         rowReleases := old(ledger).rowReleases + row)
      {
        AllCellsStep(row, countColumns);
        DestroyAndDeallocateRow(row);
        row := row + 1;
      }
    }

    /**
     * `deallocate_matrix`, guarded as intended: nothing to release without a spine, the row
     * buffers only where they were allocated (with columns), then the spine.
     */
    method DeallocateMatrix()
      requires Shaped() && spineLive == (elem != null)
      requires forall r :: 0 <= r < spaceRows ==> rowLive[r] == (spaceColumns > 0)
      requires live == {}
      modifies this`spineLive, this`rowLive, this`ledger
      ensures !spineLive && forall r :: 0 <= r < |rowLive| ==> !rowLive[r]
      ensures ledger == old(ledger).(rowReleases := old(ledger).rowReleases + (if spaceColumns > 0 then spaceRows else 0),
                                     spineReleases := old(ledger).spineReleases + (if elem != null then 1 else 0))
    {
      if elem == null {
        return;
      }
      if spaceColumns > 0 {
        var row := 0;
        while row < spaceRows
          invariant 0 <= row <= spaceRows && |rowLive| == spaceRows
          invariant forall r :: 0 <= r < spaceRows ==> rowLive[r] == (r >= row)
          invariant ledger == old(ledger).(rowReleases := old(ledger).rowReleases + row)
        {
          DeallocateRow(row);
          row := row + 1;
        }
      }
      spineLive := false;
      ledger := ledger.(spineReleases := ledger.spineReleases + 1);
    }

    /**
     * `deallocate_matrix` as written, once its assertion of a non-null spine has passed:
     * every one of the `space_rows_` row pointers is released, also when there are no columns
     * and the pointers were never set (each such release is a fault), then the spine.
     */
    method DeallocateMatrixAsWritten()
      requires Shaped() && elem != null
      requires forall r :: 0 <= r < spaceRows ==> rowLive[r] == (spaceColumns > 0)
      requires live == {}
      modifies this`spineLive, this`rowLive, this`ledger
      ensures !spineLive && forall r :: 0 <= r < |rowLive| ==> !rowLive[r]
      ensures ledger == old(ledger).(rowReleases := old(ledger).rowReleases + spaceRows,
                                     spineReleases := old(ledger).spineReleases + 1,
                                     faults := old(ledger).faults + (if spaceColumns == 0 then spaceRows else 0))
    {
      var row := 0;
      while row < spaceRows
        invariant 0 <= row <= spaceRows && |rowLive| == spaceRows
        invariant forall r :: 0 <= r < spaceRows ==> rowLive[r] == (r >= row && spaceColumns > 0)
        invariant ledger == old(ledger).(rowReleases := old(ledger).rowReleases + row,
                                         faults := old(ledger).faults + (if spaceColumns == 0 then row else 0))
      {
        if spaceColumns > 0 {
          DeallocateRow(row);
        } else {
          ledger := ledger.(rowReleases := ledger.rowReleases + 1, faults := ledger.faults + 1);
        }
        row := row + 1;
      }
      spineLive := false;
      ledger := ledger.(spineReleases := ledger.spineReleases + 1);
    }

    /**
     * The destructors: `~matrix` runs `destroy_all`, then `~matrix_base` runs
     * `deallocate_matrix`. Every element is destroyed and all storage released, exactly once.
     */
    method Finalize()
      requires Valid()
      modifies this`live, this`spineLive, this`rowLive, this`ledger
      ensures live == {} && !spineLive && forall r :: 0 <= r < |rowLive| ==> !rowLive[r]
      ensures ledger == TornDown(old(ledger), countRows, countColumns)
      ensures Balanced(ledger)
    {
      DestroyAll();
      DeallocateMatrix();
      LifecycleBalanced(countRows, countColumns);
    }
  }

  /**
   * A matrix built by `matrix(rows, columns, value)` answers every in-range `operator()`
   * with `value`, and every other one with the error `check_indexes` throws.
   */
  method ReadAfterFill<T(0)>(rows: SizeT, columns: SizeT, value: T, row: SizeT, column: SizeT)
    returns (r: Result<T, RangeError>)
    ensures row < rows && column < columns ==> r == Ok(value)
    ensures row >= rows ==> r == Err(RowOutOfRange)
    ensures row < rows && column >= columns ==> r == Err(ColumnOutOfRange)
  {
    var m := new Matrix(rows, columns, value);
    r := m.Get(row, column);
  }

  /** Swapping twice restores both matrices. */
  method SwapTwice<T(0)>(a: Matrix<T>, b: Matrix<T>)
    requires a.Valid() && b.Valid()
    modifies a, b
    ensures a.Valid() && b.Valid()
    ensures a.elem == old(a.elem) && b.elem == old(b.elem)
    ensures a.countRows == old(a.countRows) && a.countColumns == old(a.countColumns)
    ensures b.countRows == old(b.countRows) && b.countColumns == old(b.countColumns)
    ensures a.spaceRows == old(a.spaceRows) && a.spaceColumns == old(a.spaceColumns)
    ensures b.spaceRows == old(b.spaceRows) && b.spaceColumns == old(b.spaceColumns)
    ensures a.Cells == old(a.Cells) && b.Cells == old(b.Cells)
  {
    a.Swap(b);
    a.Swap(b);
  }
}
