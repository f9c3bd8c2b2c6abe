/**
 * The fixed-extent matrix `fixed_matrix<T, RowsCount, ColumnsCount>`: one contiguous buffer
 * of `RowsCount * ColumnsCount` elements laid out row after row, so that element (r, c) sits
 * at flat position `r * ColumnsCount + c`. Its iterators are plain pointers into that buffer,
 * so iteration visits the buffer in order, and the reverse iterators visit it backwards.
 */
module FixedMatrices {
  import opened Outcomes
  import opened SizeTypes

  /** `fixed_matrix_error`, told apart by the message the source attaches to it. */
  datatype FixedMatrixError = InvalidArgument | RowIndexOutOfRange | ColumnIndexOutOfRange

  /** A sequence read back to front, as a pair of reverse iterators reads a range. */
  function Reverse<T>(s: seq<T>): (r: seq<T>)
    ensures |r| == |s|
  {
    if s == [] then [] else Reverse(s[1..]) + [s[0]]
  }

  /** Position `k` of the reversed sequence holds position `|s| - 1 - k` of the original. */
  lemma {:induction false} ReverseIndex<T>(s: seq<T>, k: int)
    requires 0 <= k < |s|
    ensures Reverse(s)[k] == s[|s| - 1 - k]
  {
    if k < |s| - 1 {
      ReverseIndex(s[1..], k);
    }
  }

  /** Reading a reversed sequence in reverse gives back the original. */
  lemma ReverseInvolution<T>(s: seq<T>)
    ensures Reverse(Reverse(s)) == s
  {
    forall k | 0 <= k < |s|
      ensures Reverse(Reverse(s))[k] == s[k]
    {
      ReverseIndex(Reverse(s), k);
      ReverseIndex(s, |s| - 1 - k);
    }
  }

  /** The rows of a nested array one after another, as `T[R][C]` lies in memory. */
  function Flatten<T>(rows: seq<seq<T>>): seq<T> {
    if rows == [] then [] else rows[0] + Flatten(rows[1..])
  }

  /** Rows of `columns` elements each flatten to `|rows| * columns` elements. */
  lemma {:induction false} FlattenLength<T>(rows: seq<seq<T>>, columns: nat)
    requires forall r :: 0 <= r < |rows| ==> |rows[r]| == columns
    ensures |Flatten(rows)| == |rows| * columns
  {
    if rows != [] {
      FlattenLength(rows[1..], columns);
      MulSucc(|rows| - 1, columns);
    }
  }

  /** With rows of `columns` elements each, element (r, c) of the nested array lands at `r * columns + c`. */
  lemma {:induction false} FlattenIndex<T>(rows: seq<seq<T>>, columns: nat, r: nat, c: nat)
    requires forall i :: 0 <= i < |rows| ==> |rows[i]| == columns
    requires r < |rows| && c < columns
    ensures r * columns + c < |Flatten(rows)|
    ensures Flatten(rows)[r * columns + c] == rows[r][c]
  {
    FlattenLength(rows, columns);
    RowEndBelow(r, |rows|, columns);
    if r > 0 {
      var rest := rows[1..];
      FlattenIndex(rest, columns, r - 1, c);
      MulSucc(r - 1, columns);
      assert Flatten(rows) == rows[0] + Flatten(rest);
    }
  }

  /** `std::fill(begin, end, value)` over a whole buffer. */
  method Fill<T>(a: array<T>, value: T)
    modifies a
    ensures forall i :: 0 <= i < a.Length ==> a[i] == value
  {
    var i := 0;
    while i < a.Length
      invariant 0 <= i <= a.Length
      invariant forall j :: 0 <= j < i ==> a[j] == value
    {
      a[i] := value;
      i := i + 1;
    }
  }

  /** `std::copy(first, last, begin)` of a range as long as the buffer. */
  method CopyInto<T>(a: array<T>, source: seq<T>)
    requires |source| == a.Length
    modifies a
    ensures a[..] == source
  {
    var i := 0;
    while i < a.Length
      invariant 0 <= i <= a.Length
      invariant forall j :: 0 <= j < i ==> a[j] == source[j]
    {
      a[i] := source[i];
      i := i + 1;
    }
  }

  /** `std::swap_ranges(begin, end, other)`: element by element; swapping a range with itself changes nothing. */
  method SwapRanges<T>(a: array<T>, b: array<T>)
    requires a.Length == b.Length
    modifies a, b
    ensures a[..] == old(b[..]) && b[..] == old(a[..])
  {
    var i := 0;
    while i < a.Length
      invariant 0 <= i <= a.Length
      invariant forall j :: 0 <= j < i ==> a[j] == old(b[j]) && b[j] == old(a[j])
      invariant forall j :: i <= j < a.Length ==> a[j] == old(a[j]) && b[j] == old(b[j])
    {
      var t := a[i];
      a[i] := b[i];
      b[i] := t;
      i := i + 1;
    }
  }

  class FixedMatrix<T(0)> {
    /** `RowsCount` and `ColumnsCount`. */
    const rows: SizeT
    const columns: SizeT
    /** `elems_`, row after row. */
    const elems: array<T>

    /** The buffer holds `LINEAR_SIZE` elements. */
    ghost predicate Valid() {
      elems.Length == rows * columns
    }

    /** The elements in forward-iterator order, `begin()` to `end()`. */
    function Contents(): (s: seq<T>)
      reads elems
      ensures |s| == elems.Length
    {
      elems[..]
    }

    /** `fixed_matrix()`: every element value-initialised (`elems_{}`), to `zero`. */
    constructor (rows: SizeT, columns: SizeT, zero: T)
      ensures this.rows == rows && this.columns == columns && Valid() && fresh(elems)
      ensures forall i :: 0 <= i < elems.Length ==> elems[i] == zero
    {
      this.rows, this.columns := rows, columns;
      elems := new T[rows * columns](_ => zero);
    }

    /** `fixed_matrix(val)`: `std::fill` sets every element to `value`. */
    constructor Filled(rows: SizeT, columns: SizeT, value: T)
      ensures this.rows == rows && this.columns == columns && Valid() && fresh(elems)
      ensures forall i :: 0 <= i < elems.Length ==> elems[i] == value
    {
      this.rows, this.columns := rows, columns;
      elems := new T[rows * columns];
      new;
      Fill(elems, value);
    }

    /** `fixed_matrix(const T(&)[LINEAR_SIZE])`: the flat array copied in order. */
    constructor FromFlat(rows: SizeT, columns: SizeT, arr: seq<T>)
      requires |arr| == rows * columns
      ensures this.rows == rows && this.columns == columns && Valid() && fresh(elems)
      ensures Contents() == arr
    {
      this.rows, this.columns := rows, columns;
      elems := new T[rows * columns];
      new;
      CopyInto(elems, arr);
    }

    /** `fixed_matrix(const T(&)[RowsCount][ColumnsCount])`: the nested array copied row after row. */
    constructor FromNested(rows: SizeT, columns: SizeT, arr: seq<seq<T>>)
      requires |arr| == rows && forall r :: 0 <= r < rows ==> |arr[r]| == columns
      ensures this.rows == rows && this.columns == columns && Valid() && fresh(elems)
      ensures Contents() == Flatten(arr)
    {
      this.rows, this.columns := rows, columns;
      elems := new T[rows * columns];
      new;
      FlattenLength(arr, columns);
      CopyInto(elems, Flatten(arr));
    }

    /** `fixed_matrix(const fixed_matrix&)`: a fresh buffer holding the other matrix's elements. */
    constructor Clone(other: FixedMatrix<T>)
      requires other.Valid()
      ensures rows == other.rows && columns == other.columns && Valid() && fresh(elems)
      ensures Contents() == other.Contents()
    {
      rows, columns := other.rows, other.columns;
      elems := new T[other.rows * other.columns];
      new;
      CopyInto(elems, other.elems[..]);
    }

    /**
     * `fixed_matrix(std::initializer_list<T>)`: throws `fixed_matrix_error` exactly when the
     * list does not hold `LINEAR_SIZE` elements, and otherwise copies it in order.
     */
    static method FromList(rows: SizeT, columns: SizeT, list: seq<T>) returns (r: Result<FixedMatrix<T>, FixedMatrixError>)
      ensures r.Err? <==> |list| != rows * columns
      ensures r.Err? ==> r.error == InvalidArgument
      ensures r.Ok? ==> fresh(r.value) && fresh(r.value.elems) && r.value.Valid()
      ensures r.Ok? ==> r.value.rows == rows && r.value.columns == columns && r.value.Contents() == list
    {
      if |list| != rows * columns {
        return Err(InvalidArgument);
      }
      var m := new FixedMatrix.FromFlat(rows, columns, list);
      return Ok(m);
    }

    /** `operator=(const fixed_matrix&)`: a self-assignment changes nothing; otherwise the elements are copied. */
    method CopyAssign(other: FixedMatrix<T>) returns (self: FixedMatrix<T>)
      requires Valid() && other.Valid() && other.rows == rows && other.columns == columns
      modifies elems
      ensures self == this
      ensures Contents() == old(other.Contents())
    {
      if other == this {
        return this;
      }
      CopyInto(elems, other.elems[..]);
      return this;
    }

    /** `count_rows()`. */
    function CountRows(): (n: SizeT)
      requires Valid()
      ensures n == rows && n * columns == elems.Length
    {
      rows
    }

    /** `count_columns()`. */
    function CountColumns(): (n: SizeT)
      requires Valid()
      ensures n == columns && rows * n == elems.Length
    {
      columns
    }

    /** `count_elements()`: `LINEAR_SIZE`, the length of the forward iteration. */
    function CountElements(): (n: int)
      requires Valid()
      reads elems
      ensures n == elems.Length == |Contents()|
      ensures n == CountRows() * CountColumns()
    {
      rows * columns
    }

    /** `swap`: `std::swap_ranges` over the two buffers. */
    method Swap(other: FixedMatrix<T>)
      requires Valid() && other.Valid() && other.rows == rows && other.columns == columns
      modifies elems, other.elems
      ensures Contents() == old(other.Contents()) && other.Contents() == old(Contents())
    {
      SwapRanges(elems, other.elems);
    }

    /** `range_check`: the row is checked first, then the column. */
    function RangeCheck(row: SizeT, column: SizeT): (r: Outcome<FixedMatrixError>)
      ensures r == Pass <==> row < rows && column < columns
      ensures r == Fail(RowIndexOutOfRange) <==> row >= rows
      ensures r == Fail(ColumnIndexOutOfRange) <==> row < rows && column >= columns
    {
      if row >= rows then Fail(RowIndexOutOfRange)
      else if column >= columns then Fail(ColumnIndexOutOfRange)
      else Pass
    }

    /** `operator()(row, column)` read: the element at `row * columns + column`, or the error `range_check` throws. */
    function At(row: SizeT, column: SizeT): (r: Result<T, FixedMatrixError>)
      requires Valid()
      reads elems
      ensures r.Ok? <==> row < rows && column < columns
      ensures r.Ok? ==> row * columns + column < elems.Length && r.value == elems[row * columns + column]
      ensures r.Err? ==> Fail(r.error) == RangeCheck(row, column)
    {
      match RangeCheck(row, column)
      case Fail(e) => Err(e)
      case Pass =>
        RowEndBelow(row, rows, columns);
        Ok(elems[row * columns + column])
    }

    /** `operator()(row, column) = value`: the checked write through the returned reference. */
    method SetAt(row: SizeT, column: SizeT, value: T) returns (r: Outcome<FixedMatrixError>)
      requires Valid()
      modifies elems
      ensures r == RangeCheck(row, column)
      ensures r == Pass ==> row * columns + column < elems.Length
      ensures r == Pass ==> Contents() == old(Contents())[row * columns + column := value]
      ensures r != Pass ==> Contents() == old(Contents())
    {
      r := RangeCheck(row, column);
      if r == Pass {
        RowEndBelow(row, rows, columns);
        elems[row * columns + column] := value;
      }
    }

    /** `operator[](row)`: the row starting at `row * columns`, with no check. */
    function RowAt(row: SizeT): (r: seq<T>)
      requires Valid() && row < rows
      reads elems
      ensures |r| == columns
      ensures forall c :: 0 <= c < columns ==> row * columns + c < elems.Length && r[c] == elems[row * columns + c]
    {
      RowEndBelow(row, rows, columns);
      elems[row * columns .. row * columns + columns]
    }

    /**
     * `m[row][column] = value`: the write through the pointer the non-const `operator[]`
     * returns. Nothing is checked, so an index outside the matrix is the caller's error.
     */
    method SetThroughRow(row: SizeT, column: SizeT, value: T)
      requires Valid() && row < rows && column < columns
      modifies elems
      ensures row * columns + column < elems.Length
      ensures Contents() == old(Contents())[row * columns + column := value]
      ensures RowAt(row)[column] == value
    {
      RowEndBelow(row, rows, columns);
      elems[row * columns + column] := value;
    }

    /** The elements in reverse-iterator order, `rbegin()` to `rend()`: `*(rbegin() + k)` is `*(end() - 1 - k)`. */
    function ReverseView(): (s: seq<T>)
      reads elems
      ensures |s| == elems.Length
      ensures forall k :: 0 <= k < |s| ==> s[k] == elems[elems.Length - 1 - k]
    {
      var v := Reverse(elems[..]);
      assert forall k :: 0 <= k < |v| ==> v[k] == elems[elems.Length - 1 - k] by {
        forall k | 0 <= k < |v| {
          ReverseIndex(elems[..], k);
        }
      }
      v
    }

    /**
     * `std::copy(crbegin(other), crend(other), begin())`: this matrix receives the other's
     * elements back to front. The destination may not lie inside the source range.
     */
    method CopyReversedFrom(other: FixedMatrix<T>)
      requires Valid() && other.Valid() && other.rows == rows && other.columns == columns
      requires other.elems != elems
      modifies elems
      ensures Contents() == Reverse(other.Contents())
      ensures ReverseView() == other.Contents()
    {
      var n := elems.Length;
      var i := 0;
      while i < n
        invariant 0 <= i <= n
        invariant forall j :: 0 <= j < i ==> elems[j] == other.elems[n - 1 - j]
      {
        elems[i] := other.elems[n - 1 - i];
        i := i + 1;
      }
      forall k | 0 <= k < n
        ensures elems[k] == Reverse(other.Contents())[k]
      {
        ReverseIndex(other.Contents(), k);
      }
      ReverseInvolution(other.Contents());
    }

    /**
     * Checked and unchecked access agree inside the bounds: `operator()(r, c)` is
     * `operator[](r)[c]`, the element at flat position `r * columns + c` of the forward iteration.
     */
    lemma CheckedMatchesUnchecked(row: SizeT, column: SizeT)
      requires Valid() && row < rows && column < columns
      ensures At(row, column) == Ok(RowAt(row)[column])
      ensures row * columns + column < |Contents()| && RowAt(row)[column] == Contents()[row * columns + column]
    {
    }

    /** Index `-1`, converted to `size_t`, is past every row: `operator()(-1, c)` throws. */
    lemma MinusOneIsOutOfRange(column: SizeT)
      requires Valid()
      ensures At(WORD - 1, column) == Err(RowIndexOutOfRange)
      ensures At(rows, column) == Err(RowIndexOutOfRange)
    {
    }
  }

  /**
   * Construction from an initializer list followed by a forward iteration: the list comes
   * back in order when it holds `rows * columns` elements, and construction throws otherwise.
   */
  method ListThenIterate<T(0)>(rows: SizeT, columns: SizeT, list: seq<T>) returns (r: Result<seq<T>, FixedMatrixError>)
    ensures r == (if |list| == rows * columns then Ok(list) else Err(InvalidArgument))
  {
    var built := FixedMatrix.FromList(rows, columns, list);
    match built
    case Err(e) => r := Err(e);
    case Ok(m) => r := Ok(m.Contents());
  }

  /**
   * Copying a matrix through its reverse iterators into another, then reading that one
   * through its reverse iterators, reproduces the original elements.
   */
  method ReverseCopyRoundTrip<T(0)>(rows: SizeT, columns: SizeT, elements: seq<T>) returns (back: seq<T>)
    requires |elements| == rows * columns
    ensures back == elements
  {
    var source := new FixedMatrix.FromFlat(rows, columns, elements);
    var target := new FixedMatrix.FromFlat(rows, columns, elements);
    target.CopyReversedFrom(source);
    back := target.ReverseView();
  }

  /** Swapping twice restores both matrices. */
  method SwapTwice<T(0)>(a: FixedMatrix<T>, b: FixedMatrix<T>)
    requires a.Valid() && b.Valid() && a.rows == b.rows && a.columns == b.columns
    modifies a.elems, b.elems
    ensures a.Contents() == old(a.Contents()) && b.Contents() == old(b.Contents())
  {
    a.Swap(b);
    b.Swap(a);
  }
}
