# Dynamic and fixed-extent matrices, modelled in Dafny

This project models the two matrix containers of the repository:

- `matrix<T>` (with its base `matrix_base<T, A>` and its nested random-access `MatrixIterator`).
  Storage is a spine of row pointers, and each row is a separately allocated buffer.
- `fixed_matrix<T, RowsCount, ColumnsCount>`. Storage is one contiguous buffer laid out row after row.

Layout:

- `size_types.dfy` (module `SizeTypes`) holds `std::size_t` as the subset type `SizeT` (below 2^64), plus a few facts about row-major indexes.
- `outcomes.dfy` (module `Outcomes`) holds `Result` and `Outcome`. They stand for the exceptions the containers throw.
- `matrix_iterator.dfy` (module `MatrixIterators`) models `MatrixIterator` as a datatype. The row pointer `ptr_` becomes a row index. Construction, `++`, `--`, the comparisons, `-` and `+ n`/`- n` are functions, and the lemmas prove:
  - forward traversal is row-major, and `rows * columns` steps reach `end()`;
  - reverse traversal mirrors forward traversal, once the iterator copy keeps its column;
  - the comparisons form a lexicographic order;
  - iterator arithmetic is row-granular.
- `matrix_ledger.dfy` (module `MatrixLedger`) counts what an instrumented allocator would see over one matrix's life. It gives the constructor and destructor both as written and as intended.
- `matrix.dfy` (module `DynamicMatrix`) has the class `Matrix<T>`:
  - real fields `elem` (the spine, `array?<array?<T>>`) and the four counters;
  - ghost state recording which storage is live, which elements are constructed, the element values (`Cells`) and the ledger.
  
  Allocation, fill construction, checked access, swap and the teardown loops are methods over that state.
- `fixed_matrix.dfy` (module `FixedMatrices`) has the class `FixedMatrix<T>`. `RowsCount` and `ColumnsCount` are the constants `rows` and `columns`, and `elems_` is an `array<T>` of length `rows * columns` indexed by `r * columns + c`. The constructors, copy, swap, checked and unchecked access, and reverse iteration are modelled, together with the properties the repository's test suite checks.

The value-initialised `T{}` has no generic Dafny counterpart, so the constructors that use it take that value as a parameter.

The traversal lemmas share a small vocabulary that has no single source function behind it: `MatrixIterators.Advance` and `MatrixIterators.Retreat` apply `++` or `--` a given number of times, `MatrixIterators.Position` is an iterator's row-major index `row * (maxColumn + 1) + column`, and `MatrixIterators.WellFormed` says its column is within its bound. `FixedMatrices.Flatten` lays a nested array out row after row, as the nested-array constructor copies it.

## Model

| member | source | states |
|---|---|---|
| `MatrixIterators.Incr` | matrix/matrix.hpp:297 | `++` on a `size_t` column adds one and wraps from 2^64 - 1 to 0 |
| `MatrixIterators.Make` | matrix/matrix.hpp:257-260 | the private constructor starts at column 0 with bound `columnsCount - 1`, which wraps to 2^64 - 1 for zero columns |
| `MatrixIterators.BeginOf` | matrix/matrix.hpp:172 | `begin()` is row 0, column 0, and well-formed |
| `MatrixIterators.EndOfAsWritten` | matrix/matrix.hpp:173 | `end()` as written is column 0 of row `rows`, one past the last row; with zero columns its bound is the wrapped 2^64 - 1 |
| `MatrixIterators.EndOf` | matrix/matrix.hpp:172-176 | `end()` is `EndOfAsWritten` whenever there are columns, and equals `begin()` when there are none |
| `MatrixIterators.Next` | matrix/matrix.hpp:290-300 | definition of `++`: the next column, or column 0 of the next row after the last column; its properties are stated by `StepsAreInverse`, `StepsMoveOnePosition` and `RowMajorTraversal` |
| `MatrixIterators.Prev` | matrix/matrix.hpp:308-318 | definition of `--`: the previous column, or the last column of the previous row from column 0; its properties are stated by `StepsAreInverse`, `StepsMoveOnePosition` and `ReverseTraversal` |
| `MatrixIterators.PostIncrementAsWritten` | matrix/matrix.hpp:301-306 | definition of `it++` as written: `tmp` made by the column-dropping copy constructor, then `++`; compared with the intended one by `PostStepsAsWrittenLoseColumn` |
| `MatrixIterators.PostDecrementAsWritten` | matrix/matrix.hpp:319-324 | definition of `it--` as written: `tmp` made by the column-dropping copy constructor, then `--`; compared with the intended one by `PostStepsAsWrittenLoseColumn` |
| `MatrixIterators.PostIncrement` | matrix/matrix.hpp:301-306 | with the intended copy, `it++` yields exactly the old iterator (row, column and bound), and the iterator ends one step further on, strictly after it |
| `MatrixIterators.PostStepsAsWrittenLoseColumn` | matrix/matrix.hpp:301-324 | as written, `it++` and `it--` hand back the old position only when it was at column 0, because `tmp` is made by the copy constructor; the step itself is unaffected |
| `MatrixIterators.PostDecrement` | matrix/matrix.hpp:319-324 | with the intended copy, `it--` yields exactly the old iterator (row, column and bound), and the iterator ends one step back, strictly before it |
| `MatrixIterators.Difference` | matrix/matrix.hpp:326 | `a - b` is the row distance taken modulo 2^64: the distance itself when it is non-negative, 2^64 plus it when it is negative |
| `MatrixIterators.CopyAsWritten` | matrix/matrix.hpp:264-267 | definition of the copy constructor as written: row and bound copied, column reset to 0; compared with `Copy` by `CopyAsWrittenLosesColumn` |
| `MatrixIterators.Plus` | matrix/matrix.hpp:328 | definition of `it + n` as intended: `n` rows ahead at column 0 with the same bound; stated by `OffsetIsRowGranular` |
| `MatrixIterators.Minus` | matrix/matrix.hpp:329 | definition of `it - n` as intended: `n` rows back at column 0 with the same bound; stated by `OffsetIsRowGranular` |
| `MatrixIterators.PlusAsWritten` | matrix/matrix.hpp:328 | definition of `it + n` as written: the bound is passed to the two-argument constructor as a column count; stated by `OffsetAsWrittenShrinksRow` |
| `MatrixIterators.MinusAsWritten` | matrix/matrix.hpp:329 | definition of `it - n` as written, with the same bound defect; stated by `OffsetAsWrittenShrinksRow` |
| `MatrixIterators.Equal` | matrix/matrix.hpp:278 | definition of `==`: same row and same column, the bound not compared; order facts in `OrderIsLexicographic` |
| `MatrixIterators.NotEqual` | matrix/matrix.hpp:279 | definition of `!=`: the negation of `==`; `OrderIsLexicographic` proves it is `<` or `>` |
| `MatrixIterators.Less` | matrix/matrix.hpp:281 | definition of `<`: the row first, the column as tie-break; `OrderIsLexicographic` proves it a strict total order |
| `MatrixIterators.Greater` | matrix/matrix.hpp:282 | definition of `>`, written out separately in the source; `OrderIsLexicographic` proves it the converse of `<` |
| `MatrixIterators.LessEq` | matrix/matrix.hpp:284 | definition of `<=` as the negation of `>`; `OrderIsLexicographic` proves it is `<` or `==` |
| `MatrixIterators.GreaterEq` | matrix/matrix.hpp:285 | definition of `>=` as the negation of `<`; `OrderIsLexicographic` proves it is `>` or `==` |
| `MatrixIterators.Copy` | matrix/matrix.hpp:264-267 | the intended copy equals the original, keeps its bound, and steps exactly as the original does |
| `MatrixIterators.OrderIsLexicographic` | matrix/matrix.hpp:278-285 | `<` is a strict total order on (row, column), `>` is its converse, `<=`/`>=` are `<`/`>` or `==`, and `!=` means `<` or `>` |
| `MatrixIterators.StepsAreInverse` | matrix/matrix.hpp:290-318 | on a well-formed iterator `--` undoes `++` and `++` undoes `--`; both keep it well-formed, and they move strictly forward and strictly backward |
| `MatrixIterators.StepsMoveOnePosition` | matrix/matrix.hpp:290-318 | `++` and `--` change the row-major position `row * (maxColumn + 1) + column` by exactly +1 and -1, including across row boundaries |
| `MatrixIterators.AdvanceAdd` | matrix/matrix.hpp:290-300 | `a + b` increments are `a` increments followed by `b` increments |
| `MatrixIterators.AdvanceWithinRow` | matrix/matrix.hpp:296-298 | increments that stay inside a row move only the column |
| `MatrixIterators.AdvanceRows` | matrix/matrix.hpp:292-295 | from column 0, `q` rows' worth of increments land on column 0, `q` rows down |
| `MatrixIterators.AdvanceWellFormed` | matrix/matrix.hpp:290-300 | increments keep an iterator well-formed and keep its bound |
| `MatrixIterators.RowMajorTraversal` | matrix/matrix.hpp:290-300 | with `C > 0` columns, `k` increments from `begin()` reach row `k / C`, column `k % C` |
| `MatrixIterators.AdvanceIncreases` | matrix/matrix.hpp:290-300 | more increments from a well-formed iterator give a strictly greater position |
| `MatrixIterators.TraversalIsOrdered` | matrix/matrix.hpp:281 | position after `i` increments < position after `j` increments iff `i < j` |
| `MatrixIterators.TraversalReachesEnd` | matrix/matrix.hpp:172-173 | `rows * columns` increments from `begin()` reach `end()`; every earlier position is `<` `end()`; with columns, `end()` is (rows, 0) |
| `MatrixIterators.EmptyRange` | matrix/matrix.hpp:172-173 | a matrix with no elements has `begin() == end()` |
| `MatrixIterators.ReverseTraversal` | matrix/matrix.hpp:308-318 | `k` decrements from `end()` land where `rows * columns - k` increments from `begin()` do |
| `MatrixIterators.ReverseDeref` | matrix/matrix.hpp:182-189 | with the intended copy, a reverse iterator reads the element just before its base |
| `MatrixIterators.ReverseDerefAsWritten` | matrix/matrix.hpp:182-189 | definition of `reverse_iterator::operator*` as written: the base copied by the column-dropping copy constructor, then `--`; stated by `ReverseDerefAsWrittenAgrees` and `ReverseTraversalAsWrittenTwoByThree` |
| `MatrixIterators.ReverseDerefMirrors` | matrix/matrix.hpp:182-189 | with the intended copy, the `k`-th element of `rbegin()`..`rend()` is element `rows * columns - 1 - k` of forward order |
| `MatrixIterators.ReverseDerefAsWrittenAgrees` | matrix/matrix.hpp:182-189 | as written, the copy inside `reverse_iterator::operator*` drops the column, so it reads the last column of the previous row; that is the intended element iff the base is at column 0 |
| `MatrixIterators.ReverseTraversalAsWrittenTwoByThree` | matrix/matrix.hpp:182-189 | as written, on a 2-by-3 matrix the second reverse element is (0, 2) instead of (1, 1), and the fifth is read through row -1 |
| `MatrixIterators.ReverseBeginIsLastElement` | matrix/matrix.hpp:182-183 | `--end()` is the last column of the last row, the last element of forward order |
| `MatrixIterators.DifferenceIsRowGranular` | matrix/matrix.hpp:326 | after `k` increments from `begin()` the difference to `begin()` is `k / columns`, and `end() - begin()` is the row count |
| `MatrixIterators.DifferenceWraps` | matrix/matrix.hpp:326 | `begin() - end()` is `2^64 - rows`, because `difference_type` is unsigned |
| `MatrixIterators.OffsetIsRowGranular` | matrix/matrix.hpp:328-329 | `it + n` from column 0 lands where `n * columns` increments do, `- n` undoes it, and their difference is `n` |
| `MatrixIterators.ZeroColumnsWalkRowZero` | matrix/matrix.hpp:257-260 | as written, with rows but no columns, `begin() != end()`, `end() - begin()` is `rows` where the corrected range gives 0, and the increments walk the columns of row 0, which has no storage |
| `MatrixIterators.OffsetAsWrittenShrinksRow` | matrix/matrix.hpp:328-329 | as written, `it + n`/`it - n` get bound `maxColumn - 1`, so they reach the next row one step early compared with `Plus` |
| `MatrixIterators.OffsetAsWrittenWrapsOnOneColumn` | matrix/matrix.hpp:328-329 | as written, on a one-column matrix `it + n` gets the wrapped bound 2^64 - 1 |
| `MatrixIterators.CopyAsWrittenLosesColumn` | matrix/matrix.hpp:264-267 | the as-written copy equals the original iff the original is at column 0; the intended copy always does |
| `MatrixLedger.Constructed` | matrix/matrix.hpp:23-35 | counts of the sized constructor as intended: no spine for zero rows, one spine for rows, and one buffer per row and `rows * columns` constructions when there are columns; stated by `LifecycleBalanced` |
| `MatrixLedger.TornDown` | matrix/matrix.hpp:71-78 | counts of the destructors as intended: every element destroyed, buffers released only with columns, the spine only with rows; stated by `LifecycleBalanced` |
| `MatrixLedger.ConstructedAsWritten` | matrix/matrix.hpp:23-35 | counts of the sized constructor as written: two spines when there are rows and columns, and a fault when the fill walks a zero-column matrix; `DynamicMatrix.Matrix.AllocateStorageAsWritten` reproduces its allocation counts |
| `MatrixLedger.TornDownAsWritten` | matrix/matrix.hpp:71-78 | counts of the destructors as written: a fault for a null spine, `rows` row releases whether or not buffers exist, and a fault for each unset row pointer; `DynamicMatrix.Matrix.DeallocateMatrixAsWritten` reproduces its release and per-row fault counts for a non-null spine |
| `MatrixLedger.LifecycleBalanced` | matrix/matrix.hpp:23-37 | the intended lifecycle allocates one spine when there are rows and one buffer per row when there are columns, constructs `rows * columns` elements, and releases and destroys each exactly once |
| `MatrixLedger.SourceLeaksFirstSpine` | matrix/matrix.hpp:31-34 | as written, a matrix with rows and columns allocates two spines and releases one |
| `MatrixLedger.SourceAssertsOnEmptyMatrix` | matrix/matrix.hpp:71-73 | as written, destroying a default-constructed or zero-row matrix fails the non-null spine assertion |
| `MatrixLedger.SourceTouchesUnallocatedRows` | matrix/matrix.hpp:71-78 | as written, rows with zero columns fault in construction and release `rows` buffers that were never allocated |
| `DynamicMatrix.Uniform` | matrix/matrix.hpp:203-211 | the grid holds `rows` rows of `columns` copies of `value` |
| `DynamicMatrix.Matrix.Empty` | matrix/matrix.hpp:191-193 | the default matrix has no spine, zero sizes and capacities, and no elements |
| `DynamicMatrix.Matrix.constructor` | matrix/matrix.hpp:195-211 | `count_rows_ == space_rows_ == rows`, `count_columns_ == space_columns_ == columns`, every element is `value`, and the ledger is `Constructed(rows, columns)`: a spine only when there are rows, one buffer per row only when there are also columns, and `rows * columns` constructions |
| `DynamicMatrix.Matrix.AllocateStorageAsWritten` | matrix/matrix.hpp:23-35 | as written, the base constructor allocates a spine for rows and then, with columns, `allocate_matrix` a second one; its allocation counts are those of `ConstructedAsWritten` |
| `DynamicMatrix.Matrix.AllocateSpine` | matrix/matrix.hpp:31 | a fresh spine of `space_rows_` unset slots; one spine allocation is recorded |
| `DynamicMatrix.Matrix.AllocateRow` | matrix/matrix.hpp:52-55 | a fresh buffer of `space_columns_` elements; one row allocation is recorded |
| `DynamicMatrix.Matrix.AllocateMatrix` | matrix/matrix.hpp:63-70 | a fresh spine with a distinct fresh buffer of `space_columns_` elements in every slot; one spine and `space_rows_` row allocations are recorded |
| `DynamicMatrix.Matrix.AllocateStorage` | matrix/matrix.hpp:23-35 | the storage part of the sized base constructor: no spine for zero rows, a spine for rows, and a distinct live buffer per row exactly when there are columns; the ledger is `Constructed(rows, columns)` without its constructions: one spine allocation only when there are rows, `rows` buffer allocations only when there are also columns, and no element constructed yet |
| `DynamicMatrix.Matrix.UninitializedFill` | matrix/matrix.hpp:203-211 | after filling the allocated storage, every element is `value`, the grid is `rows` by `columns` of it, and the matrix is fully constructed |
| `DynamicMatrix.Matrix.ConstructEach` | matrix/matrix.hpp:203-211 | walking from `begin()` to `end()` sets every element to `value`, leaves every position constructed, and records exactly `rows * columns` constructions |
| `DynamicMatrix.Matrix.ConstructAt` | matrix/matrix.hpp:110 | `construct` sets one element, leaves the rest of its row alone, and marks it constructed |
| `DynamicMatrix.Matrix.Begin` | matrix/matrix.hpp:172 | definition of `begin()` on the matrix's column count; stated by `ForwardIterationIsRowMajor` |
| `DynamicMatrix.Matrix.End` | matrix/matrix.hpp:173 | definition of the corrected `end()` on the matrix's sizes; stated by `ReverseIterationMirrors` and, through `EndOf`, by `TraversalReachesEnd` |
| `DynamicMatrix.Matrix.Deref` | matrix/matrix.hpp:287 | `*it` is the element at the iterator's row and column |
| `DynamicMatrix.Matrix.ForwardIterationIsRowMajor` | matrix/matrix.hpp:287-300 | after `k < rows * columns` increments from `begin()`, `*it` is element (`k / columns`, `k % columns`) |
| `DynamicMatrix.Matrix.ReverseIterationMirrors` | matrix/matrix.hpp:182-189 | with the intended copy, after `k` increments of `rbegin()` the reverse iterator reads element `rows * columns - 1 - k` of the forward traversal |
| `DynamicMatrix.Matrix.CountRows` | matrix/matrix.hpp:216 | `count_rows()` is the number of rows of elements |
| `DynamicMatrix.Matrix.CountColumns` | matrix/matrix.hpp:217 | `count_columns()` is the length of every row, and of every row buffer when positive |
| `DynamicMatrix.Matrix.SpaceRows` | matrix/matrix.hpp:219 | `space_rows()` equals the row count and the spine length |
| `DynamicMatrix.Matrix.SpaceColumns` | matrix/matrix.hpp:220 | `space_columns()` equals `count_columns()` and every row buffer's length |
| `DynamicMatrix.Matrix.CheckRowIndex` | matrix/matrix.hpp:113-118 | passes iff `index < count_rows_`, otherwise throws the row error |
| `DynamicMatrix.Matrix.CheckColumnIndex` | matrix/matrix.hpp:120-125 | passes iff `index < count_columns_`, otherwise throws the column error |
| `DynamicMatrix.Matrix.CheckIndexes` | matrix/matrix.hpp:127-131 | passes iff both indexes are in range; the row error whenever the row is out of range, the column error only for an in-range row |
| `DynamicMatrix.Matrix.Get` | matrix/matrix.hpp:227-231 | `Ok` iff both indexes are in range, and then the element; otherwise the row error (checked first) or the column error |
| `DynamicMatrix.Matrix.Set` | matrix/matrix.hpp:222-226 | a checked write changes exactly the addressed element and keeps the invariant; an out-of-range write throws and changes nothing |
| `DynamicMatrix.Matrix.Swap` | matrix/matrix.hpp:41-49 | exchanges the spine and the four size and capacity fields, and the elements with them; both matrices stay valid, also when swapped with themselves |
| `DynamicMatrix.Matrix.Take` | matrix/matrix.hpp:44-48 | one side of the exchange: every field takes the given value |
| `DynamicMatrix.Matrix.DestroyRow` | matrix/matrix.hpp:80-87 | ends the life of exactly the elements of one row and records `count_columns_` destructions |
| `DynamicMatrix.Matrix.DestroyMatrix` | matrix/matrix.hpp:89-94 | ends the life of exactly the `rows * columns` elements and records that many destructions |
| `DynamicMatrix.Matrix.DestroyAll` | matrix/matrix.hpp:234-241 | the nested loops end the life of exactly the `rows * columns` elements and record that many destructions |
| `DynamicMatrix.Matrix.DeallocateRow` | matrix/matrix.hpp:56-61 | releases one live row buffer whose elements are destroyed, and records one release |
| `DynamicMatrix.Matrix.DestroyAndDeallocateRow` | matrix/matrix.hpp:96-100 | one row's elements are destroyed, then its buffer is released |
| `DynamicMatrix.Matrix.DestroyAndDeallocateMatrix` | matrix/matrix.hpp:102-107 | every row is destroyed and released, and the spine is left alone |
| `DynamicMatrix.Matrix.DeallocateMatrix` | matrix/matrix.hpp:71-78 | releases the row buffers only if they exist, then the spine only if it exists; nothing stays live |
| `DynamicMatrix.Matrix.DeallocateMatrixAsWritten` | matrix/matrix.hpp:71-78 | as written, once the non-null assertion passes, all `space_rows_` row pointers are released (a fault each when there are no columns) and then the spine |
| `DynamicMatrix.Matrix.Finalize` | matrix/matrix.hpp:213 | the two destructors destroy every element and release all storage, and the ledger comes out balanced |
| `DynamicMatrix.ReadAfterFill` | matrix/matrix.hpp:222-231 | after `matrix(rows, columns, value)`, `operator()` returns `value` in range, and otherwise the row error (checked first) or the column error |
| `DynamicMatrix.SwapTwice` | matrix/matrix.hpp:41-49 | swapping twice restores both matrices' fields and elements |
| `FixedMatrices.Reverse` | fixed_matrix/fixed_matrix.hpp:97-104 | reading a range through reverse iterators keeps its length |
| `FixedMatrices.ReverseIndex` | fixed_matrix/fixed_matrix.hpp:97-104 | the `k`-th element read backwards is element `length - 1 - k` |
| `FixedMatrices.ReverseInvolution` | fixed_matrix/fixed_matrix.hpp:97-104 | reading backwards twice gives back the original |
| `FixedMatrices.FlattenLength` | fixed_matrix/fixed_matrix.hpp:39-42 | a `T[R][C]` array lies in memory as `R * C` elements |
| `FixedMatrices.FlattenIndex` | fixed_matrix/fixed_matrix.hpp:39-42 | element (r, c) of a `T[R][C]` array lies at flat position `r * C + c` |
| `FixedMatrices.Fill` | fixed_matrix/fixed_matrix.hpp:35 | `std::fill` sets every element of the buffer to the value |
| `FixedMatrices.CopyInto` | fixed_matrix/fixed_matrix.hpp:37 | `std::copy` leaves the buffer equal to the source range |
| `FixedMatrices.SwapRanges` | fixed_matrix/fixed_matrix.hpp:71 | `std::swap_ranges` gives each buffer the other's old contents, also when both are the same buffer |
| `FixedMatrices.FixedMatrix.Contents` | fixed_matrix/fixed_matrix.hpp:87-94 | forward iteration from `begin()` to `end()` visits the whole buffer, `LINEAR_SIZE` elements, in storage order |
| `FixedMatrices.FixedMatrix.constructor` | fixed_matrix/fixed_matrix.hpp:32-34 | the default matrix has `RowsCount * ColumnsCount` elements, all value-initialised |
| `FixedMatrices.FixedMatrix.Filled` | fixed_matrix/fixed_matrix.hpp:35 | every element equals the fill value |
| `FixedMatrices.FixedMatrix.FromFlat` | fixed_matrix/fixed_matrix.hpp:37 | forward iteration reproduces the flat array in order |
| `FixedMatrices.FixedMatrix.FromNested` | fixed_matrix/fixed_matrix.hpp:39-42 | forward iteration reproduces the nested array row after row |
| `FixedMatrices.FixedMatrix.Clone` | fixed_matrix/fixed_matrix.hpp:52 | the copy has its own buffer, element-wise equal to the original |
| `FixedMatrices.FixedMatrix.FromList` | fixed_matrix/fixed_matrix.hpp:44-50 | throws `fixed_matrix_error` iff the list length is not `LINEAR_SIZE`, and otherwise holds the list in order |
| `FixedMatrices.FixedMatrix.CopyAssign` | fixed_matrix/fixed_matrix.hpp:53-59 | after assignment, including self-assignment, the matrix holds the source's elements and the result is the matrix itself |
| `FixedMatrices.FixedMatrix.CountRows` | fixed_matrix/fixed_matrix.hpp:64 | `count_rows()` is `RowsCount`, and times the column count it is the number of elements |
| `FixedMatrices.FixedMatrix.CountColumns` | fixed_matrix/fixed_matrix.hpp:65 | `count_columns()` is `ColumnsCount`, and the row count times it is the number of elements |
| `FixedMatrices.FixedMatrix.CountElements` | fixed_matrix/fixed_matrix.hpp:66 | `count_elements()` is the buffer length, the length of the forward iteration, and `count_rows() * count_columns()` |
| `FixedMatrices.FixedMatrix.Swap` | fixed_matrix/fixed_matrix.hpp:71 | each matrix ends up holding the other's old elements |
| `FixedMatrices.FixedMatrix.RangeCheck` | fixed_matrix/fixed_matrix.hpp:107-113 | passes iff both indexes are in range; the row error whenever the row is out of range, the column error only for an in-range row |
| `FixedMatrices.FixedMatrix.At` | fixed_matrix/fixed_matrix.hpp:73-77 | `Ok` iff both indexes are in range, and then the element at `row * columns + column`; otherwise the error `range_check` throws |
| `FixedMatrices.FixedMatrix.SetAt` | fixed_matrix/fixed_matrix.hpp:78-82 | a checked write changes exactly flat position `row * columns + column`; an out-of-range write throws and changes nothing |
| `FixedMatrices.FixedMatrix.RowAt` | fixed_matrix/fixed_matrix.hpp:84-85 | `operator[](row)` is the `columns` elements starting at flat position `row * columns` |
| `FixedMatrices.FixedMatrix.SetThroughRow` | fixed_matrix/fixed_matrix.hpp:85 | `m[row][column] = value` through the non-const `operator[]` changes exactly flat position `row * columns + column`, which `operator[](row)[column]` then reads back |
| `FixedMatrices.FixedMatrix.ReverseView` | fixed_matrix/fixed_matrix.hpp:97-104 | `*(rbegin() + k)` is `*(end() - 1 - k)` for every `k` |
| `FixedMatrices.FixedMatrix.CopyReversedFrom` | fixed_matrix/fixed_matrix.hpp:97-104 | copying through the other's reverse iterators stores its elements back to front, so reading this matrix backwards gives the other's elements |
| `FixedMatrices.FixedMatrix.CheckedMatchesUnchecked` | fixed_matrix/fixed_matrix.hpp:73-91 | in range, `operator()(r, c)` equals `operator[](r)[c]`, which is element `r * columns + c` of forward iteration |
| `FixedMatrices.FixedMatrix.MinusOneIsOutOfRange` | fixed_matrix/fixed_matrix.hpp:107-110 | row index `-1` converted to `size_t`, and row index `RowsCount`, both throw the row error |
| `FixedMatrices.ListThenIterate` | fixed_matrix/fixed_matrix.hpp:44-50 | an initializer list of `LINEAR_SIZE` elements comes back in order under forward iteration; any other length throws |
| `FixedMatrices.ReverseCopyRoundTrip` | fixed_matrix/fixed_matrix.hpp:97-104 | copying through reverse iterators and then reading backwards reproduces the original elements |
| `FixedMatrices.SwapTwice` | fixed_matrix/fixed_matrix.hpp:71 | swapping twice restores both matrices |

## Left out

- The allocator machinery is not modelled: `std::scoped_allocator_adaptor`, `rebind_alloc`, the allocator arguments and `get_allocator`. Allocation is creating a Dafny array, and releasing memory is ghost state plus a count in the ledger.
- Placement `new` and explicit destructor calls are not modelled for a generic `T`. An element's lifetime is the ghost set `live`, and construction copies the value.
- Exceptions thrown by allocators or element constructors part-way through construction are not modelled.
- The value-initialised `T{}` of `matrix(rows, columns)` and of `fixed_matrix()` is a constructor parameter. `matrix(rows, columns)` is `DynamicMatrix.Matrix.constructor` with that value.
- `cbegin()` in the source brace-initialises the iterator with three arguments, which no constructor accepts. It is taken to mean `begin()`. The `const_iterator`/`iterator` distinction and `operator->` are not modelled.
- `std::reverse_iterator` is not modelled as a type. For the dynamic matrix, a reverse iterator is its base iterator, decremented from `end()` (`Retreat`), and `operator*` is `ReverseDeref`. `ReverseDeref` uses the intended copy; the as-written copy is `ReverseDerefAsWritten`, listed under Findings. The fixed matrix uses a mirrored index (`ReverseView`).
- The iterator's default constructor, which holds a null pointer, is not modelled.
- `MatrixIterators.PostIncrement`: the source returns a reference to a local variable. The model returns the old position by value, and builds `tmp` with the intended copy constructor; the as-written copy is `PostIncrementAsWritten`, listed under Findings.
- `MatrixIterators.PostDecrement`: the source returns a reference to a local variable. The model returns the old position by value, and builds `tmp` with the intended copy constructor; the as-written copy is `PostDecrementAsWritten`, listed under Findings.
- The iterator copy assignment (matrix/matrix.hpp:268-276) is Dafny value assignment of the `Iterator` datatype, which copies all three fields; its missing `return` has no counterpart.
- `FixedMatrices.FixedMatrix.CopyAssign`: the source has no `return` on the main path. The model returns the assigned object, as the self-assignment branch does.
- Pointer comparison and arithmetic outside one spine are taken as integer arithmetic on row indexes.
- `DynamicMatrix.Matrix.DestroyAndDeallocateMatrix` requires every row buffer to be live. On a zero-column matrix the source function would free uninitialised row pointers, but nothing in the source calls it.
- `fixed_matrix::data()` and the `reinterpret_cast` flat view are not modelled. The buffer is indexed by `r * columns + c` directly, so the pointer identity `&mtx(0, 0) == data()` has no counterpart.
- `LINEAR_SIZE` is computed as an unbounded product. An overflowing `RowsCount * ColumnsCount` is not modelled.
- The deleted move operations of `fixed_matrix` are type-system declarations with no behaviour.
- `matrix/main.cpp` and `fixed_matrix/main.cpp` (console output) are not part of this model. The GoogleTest file is not modelled as code; its checks appear as `ListThenIterate`, `ReverseCopyRoundTrip`, `SwapTwice`, `CheckedMatchesUnchecked` and `MinusOneIsOutOfRange`.
- A lemma stating directly that forward iteration of the fixed matrix visits (`k / columns`, `k % columns`) in order `k` is not included. `CheckedMatchesUnchecked` states the same correspondence from the (row, column) side.

## Findings

| source | as written | input that shows it | evidently intended | confidence | as-written member | corrected member |
|---|---|---|---|---|---|---|
| matrix/matrix.hpp:31-34 | the spine is allocated, then `allocate_matrix` allocates a second spine over it | `matrix(2, 3, 0)` | allocate the spine once, in `allocate_matrix` | high, not executed | `MatrixLedger.SourceLeaksFirstSpine` | `MatrixLedger.LifecycleBalanced` |
| matrix/matrix.hpp:71-73 | `deallocate_matrix` asserts a non-null spine, and the destructor always calls it | `matrix()`, or `matrix(0, 3, 0)`, then destruction | nothing to release without a spine | high, not executed | `MatrixLedger.SourceAssertsOnEmptyMatrix` | `DynamicMatrix.Matrix.DeallocateMatrix` |
| matrix/matrix.hpp:74-76 | with zero columns no row buffer is allocated, yet every row pointer is released | `matrix_base<int, std::allocator<int>>(2, 0, 0, {})`, then destruction (through `matrix(2, 0, 0)` the fill fault of lines 257-260 comes first) | release row buffers only when there are columns | high, not executed | `MatrixLedger.SourceTouchesUnallocatedRows` | `DynamicMatrix.Matrix.DeallocateMatrix` |
| matrix/matrix.hpp:257-260 | `columnsCount - 1` wraps for zero columns, so `begin() != end()`, `end() - begin()` is `rows` rather than 0, and the fill writes through an unset row pointer | `matrix(2, 0, 0)` | an empty range when there are no columns | high, not executed | `MatrixIterators.ZeroColumnsWalkRowZero` | `MatrixIterators.EmptyRange` |
| matrix/matrix.hpp:264-267 | the copy constructor does not copy `currentColumn_` | copy an iterator at (0, 2) | copy all three fields | high, not executed | `MatrixIterators.CopyAsWrittenLosesColumn` | `MatrixIterators.Copy` |
| matrix/matrix.hpp:328-329 | `it + n`/`it - n` pass `maxColumnIndex_` where a column count is expected, so the bound shrinks by one | `begin() + 1` on a 2-by-3 matrix, then 2 increments | keep the row bound | high, not executed | `MatrixIterators.OffsetAsWrittenShrinksRow` | `MatrixIterators.OffsetIsRowGranular` |
| matrix/matrix.hpp:182-189 | `reverse_iterator::operator*` copies its base through the copy constructor, which drops the column, then decrements | the second element of `rbegin()`..`rend()` on a 2-by-3 matrix; the fifth reads row -1 | read the element just before the base | high, not executed | `MatrixIterators.ReverseTraversalAsWrittenTwoByThree` | `MatrixIterators.ReverseDerefMirrors` |
| matrix/matrix.hpp:301-324 | `it++` and `it--` make `tmp` through the copy constructor, so `tmp` loses the column | `it++` on an iterator at (0, 2) | `tmp` is the old position | high, not executed | `MatrixIterators.PostStepsAsWrittenLoseColumn` | `MatrixIterators.PostIncrement` |
