# sjtu::Matrix in Dafny

A model of `sjtu::Matrix<T>` from `OOP1-Matrix/matrix.hpp`, with `T = int`.
The C++ class is a dense matrix: the dimensions `n` and `m`, a cached
element count `m_size == n*m`, and one flat row-major buffer in which
element `(i, j)` lives at slot `i*m + j`. The model keeps that state as
fields of a Dafny class and writes each operation as the same loop the
C++ code runs. The matrix also has a small random-access iterator, which
is a raw pointer plus six recorded window fields.

Files:

- `row_major.dfy` (module `RowMajor`): arithmetic facts about row-major
  addressing. Slot `i*m + j` lies inside an `n*m` buffer, it decodes back
  to `(i, j)` through `/ m` and `% m`, and every slot `k < n*m` decodes to
  an in-range pair.
- `matrix_spec.dfy` (module `MatrixSpec`): the abstract value
  `Mat(rows, cols, cells)` and the reference definitions that the
  operations are proved against. These are `At`, `Filled`, `FromRows`,
  `Updated`, `RowOf`, `ColumnOf`, `Transposed`, `Sum`, `Difference`,
  `Scaled`, `Negated`, `Dot`, `Product` and `Resized`. The file also holds
  the lemmas about them: element-level characterisations, `(a+b)-b == a`,
  transpose involution, distributivity of the product over a sum, and the
  three cases of resize. Failures are `Result.InvalidArgument`, which
  stands for `std::invalid_argument`.
- `matrix.dfy` (module `Matrices`): `class Matrix` with the fields `n`,
  `m`, `mSize` and `data: array<int>`. `Valid()` states
  `mSize == n*m == data.Length`, and `Value()` is the abstract `Mat`. It
  holds the constructors, the assignments, the getters, `resize`, `clear`,
  element, row and column access, `==`, `!=`, unary `-`, `+=`, `-=`, `*=`
  and `tran`.
- `operators.dfy` (module `MatrixOperators`): the free operators: scalar
  `*` on either side, the matrix product `*`, and binary `+` and `-`.
- `iterator.dfy` (module `MatrixIterator`): the iterator as a datatype.
  Its position is an integer offset from the buffer start, and it carries
  the six window fields. The module also has `begin()`, `end()` and
  `subMatrix`, and corrected versions of `end()` and `subMatrix`.

Three places in the source do something other than what the surrounding
code evidently means, and the model follows the code in each of them. The
class's iterator claims to be random access (`matrix.hpp:300`), and
`end()` records `it_n = n`, one row past the last (`matrix.hpp:419`), so
`end()` is evidently the one-past-the-end sentinel. Yet it stores the
buffer start as its pointer (`matrix.hpp:418`), the same position as
`begin()`. `subMatrix` likewise sets both of its pointers to the buffer
start (`matrix.hpp:432`, `:440`) rather than to the window's corner.
Unary `operator-` is declared `const` (`matrix.hpp:250`), so it evidently
should leave its operand alone, but it negates the operand's buffer
(`matrix.hpp:252`). Each as-written behaviour and its corrected version
appear under "## Findings".

A few loops are split into a helper method with its own contract so that
each proof stays small: `AddRow`, `SubtractRow`, `TransposeRow`,
`AccumulateRow` and `AccumulateDot`. Each helper is exactly one of the
C++ loops, and the caller runs it once per outer index, as the C++ nesting
does.

## Model

| member | source | states |
|---|---|---|
| RowMajor.SlotInBuffer | OOP1-Matrix/matrix.hpp:206 | for i < n and j < m, slot i*m + j lies inside the n*m buffer |
| RowMajor.SlotDecodes | OOP1-Matrix/matrix.hpp:237 | for j < m, slot i*m + j divided by m gives row i, with remainder column j |
| RowMajor.SlotInjective | OOP1-Matrix/matrix.hpp:206 | two in-range (row, column) pairs share a slot only when they are the same pair |
| RowMajor.DecodeInBuffer | OOP1-Matrix/matrix.hpp:71 | every slot k < n*m has m > 0 and decodes to a row below n and a column below m that address slot k again |
| MatrixSpec.DecodedReadIsSlot | OOP1-Matrix/matrix.hpp:95 | reading element (k / cols, k % cols), as the converting copy, the converting assignment and == do, yields buffer slot k |
| MatrixSpec.Extensionality | OOP1-Matrix/matrix.hpp:232-239 | two matrices of one shape that agree at every (i, j) are equal |
| MatrixSpec.FilledAt | OOP1-Matrix/matrix.hpp:36-43 | every element (i, j) of Matrix(n, m, init) is init |
| MatrixSpec.FlattenLength | OOP1-Matrix/matrix.hpp:127-141 | laying out r inner lists of length c end to end fills exactly r*c slots |
| MatrixSpec.FlattenAt | OOP1-Matrix/matrix.hpp:136-140 | entry j of inner list i lands in slot i*c + j |
| MatrixSpec.FromRowsCorrect | OOP1-Matrix/matrix.hpp:122-142 | a nested literal fails exactly when some inner list's length differs from the first one's; otherwise the result is |rows| by |rows[0]| and element (i, j) is rows[i][j] |
| MatrixSpec.UpdatedAt | OOP1-Matrix/matrix.hpp:209-213 | writing element (i, j) keeps the shape, sets (i, j) to x and leaves every other element unchanged |
| MatrixSpec.RowOfAt | OOP1-Matrix/matrix.hpp:215-221 | row(i) is 1 by m and its element j is element (i, j) |
| MatrixSpec.ColumnOfAt | OOP1-Matrix/matrix.hpp:223-229 | column(i) is n by 1 and its element j is element (j, i) |
| MatrixSpec.RowIsContiguous | OOP1-Matrix/matrix.hpp:219 | row i is the contiguous block of slots i*m up to i*m + m |
| MatrixSpec.ColumnIsTransposedRow | OOP1-Matrix/matrix.hpp:223-229 | column(i) holds the same elements as row i of the transpose |
| MatrixSpec.TransposedAt | OOP1-Matrix/matrix.hpp:283-294 | the transpose is cols by rows and its element (i, j) is the source's element (j, i) |
| MatrixSpec.TransposedSlot | OOP1-Matrix/matrix.hpp:292 | slot i*n + j of the transpose is slot j*m + i of the source |
| MatrixSpec.TransposeInvolutive | OOP1-Matrix/matrix.hpp:283-294 | transposing twice gives back the original matrix |
| MatrixSpec.SumAt | OOP1-Matrix/matrix.hpp:487-495 | the sum keeps the shape, and its element (i, j) is a(i, j) + b(i, j) |
| MatrixSpec.DifferenceAt | OOP1-Matrix/matrix.hpp:497-505 | the difference keeps the shape, and its element (i, j) is a(i, j) - b(i, j) |
| MatrixSpec.SumThenDifference | OOP1-Matrix/matrix.hpp:256-274 | over the integers, adding b and then subtracting b gives back a |
| MatrixSpec.ScaledAt | OOP1-Matrix/matrix.hpp:276-281 | scaling keeps the shape, and its element (i, j) is a(i, j) * x |
| MatrixSpec.ScaledDistributes | OOP1-Matrix/matrix.hpp:458-464 | scaling a sum equals summing the scaled matrices |
| MatrixSpec.NegatedIsScaled | OOP1-Matrix/matrix.hpp:250-254 | unary minus gives the same matrix as scaling by -1 |
| MatrixSpec.NegatedTwice | OOP1-Matrix/matrix.hpp:250-254 | negating twice gives back the original matrix |
| MatrixSpec.NegatedChanges | OOP1-Matrix/matrix.hpp:252 | negation changes every matrix that has a nonzero element, so the in-place negation changes its operand |
| MatrixSpec.ProductAt | OOP1-Matrix/matrix.hpp:474-485 | the product is a.n by b.m, and its element (i, j) is the sum over k < a.m of a(i, k) * b(k, j), accumulated from 0 |
| MatrixSpec.DotOverSum | OOP1-Matrix/matrix.hpp:482-483 | the accumulated sum for a times (b + c) is the sum for a times b plus the sum for a times c |
| MatrixSpec.ProductDistributes | OOP1-Matrix/matrix.hpp:474-485 | a * (b + c) equals a * b + a * c |
| MatrixSpec.ResizedSameCount | OOP1-Matrix/matrix.hpp:152-155 | when r*c equals the old count only the dimensions change, so a 2x3 becomes a 3x2 over the same slots |
| MatrixSpec.ResizedShrinks | OOP1-Matrix/matrix.hpp:158-159 | a smaller count keeps the first r*c old elements in order |
| MatrixSpec.ResizedGrows | OOP1-Matrix/matrix.hpp:160-164 | a larger count keeps every old element at its slot and fills the new trailing slots with init |
| Matrices.Matrix.Empty | OOP1-Matrix/matrix.hpp:34 | the default matrix is 0 by 0 with an empty buffer |
| Matrices.Matrix.Fill | OOP1-Matrix/matrix.hpp:36-43 | rowLength() == n, columnLength() == m, and all n*m elements equal init |
| Matrices.Matrix.FillPair | OOP1-Matrix/matrix.hpp:45-52 | the pair form gives the same matrix as Matrix(sz.first, sz.second, init) |
| Matrices.Matrix.Copy | OOP1-Matrix/matrix.hpp:54-61 | the copy has o's value in a fresh buffer |
| Matrices.Matrix.Convert | OOP1-Matrix/matrix.hpp:63-72 | reading o through the decoded pair (i / m, i % m) reproduces o exactly |
| Matrices.Matrix.FromRows | OOP1-Matrix/matrix.hpp:122-142 | fails exactly when the reference definition fails (a ragged literal); otherwise the new matrix has the literal's rows in row-major order |
| Matrices.Matrix.Assign | OOP1-Matrix/matrix.hpp:74-84 | afterwards this matrix has o's old value; self-assignment changes nothing; otherwise the buffer is fresh |
| Matrices.Matrix.ConvertAssign | OOP1-Matrix/matrix.hpp:86-97 | afterwards this matrix has o's value, read element by element through (i / m, i % m) |
| Matrices.Matrix.RowLength | OOP1-Matrix/matrix.hpp:145 | the number of rows of the value |
| Matrices.Matrix.ColumnLength | OOP1-Matrix/matrix.hpp:147 | the number of columns of the value |
| Matrices.Matrix.Size | OOP1-Matrix/matrix.hpp:187-190 | the pair (rows, columns) of the value |
| Matrices.Matrix.Resize | OOP1-Matrix/matrix.hpp:149-166 | the new value is Resized(old value, r, c, init): the dimensions always become r by c, even when the buffer is kept |
| Matrices.Matrix.ResizePair | OOP1-Matrix/matrix.hpp:168-185 | the same new value as resize(sz.first, sz.second, init) |
| Matrices.Matrix.Clear | OOP1-Matrix/matrix.hpp:192-200 | the matrix becomes 0 by 0 and empty, whatever it was, so a second clear() changes nothing |
| Matrices.Matrix.Get | OOP1-Matrix/matrix.hpp:203-207 | fails exactly when i >= n or j >= m; otherwise yields element (i, j), which is buffer slot i*m + j |
| Matrices.Matrix.Set | OOP1-Matrix/matrix.hpp:209-213 | fails exactly when i >= n or j >= m and then changes nothing; otherwise the value is the old one with only (i, j) set to x |
| Matrices.Matrix.Row | OOP1-Matrix/matrix.hpp:215-221 | fails exactly when i >= n; otherwise it returns a fresh 1 by m copy of row i |
| Matrices.Matrix.Column | OOP1-Matrix/matrix.hpp:223-229 | fails exactly when i >= m; otherwise it returns a fresh n by 1 copy of column i |
| Matrices.Matrix.Equals | OOP1-Matrix/matrix.hpp:232-239 | true exactly when the two values are equal, that is the same shape and the same element in every slot |
| Matrices.Matrix.NotEquals | OOP1-Matrix/matrix.hpp:241-248 | true exactly when the two values differ, the negation of == |
| Matrices.Matrix.Negate | OOP1-Matrix/matrix.hpp:250-254 | the operand's own value becomes its negation, and the returned fresh copy equals the negated operand |
| Matrices.Matrix.AddRow | OOP1-Matrix/matrix.hpp:261-262 | one pass of the inner += loop adds row i of o into row i and leaves every other slot unchanged, even when o is this matrix |
| Matrices.Matrix.AddAssign | OOP1-Matrix/matrix.hpp:256-264 | fails and changes nothing exactly when the sizes differ; otherwise the new value is the element-wise sum of the old values, also when o is this matrix |
| Matrices.Matrix.SubtractRow | OOP1-Matrix/matrix.hpp:271-272 | one pass of the inner -= loop subtracts row i of o from row i and leaves every other slot unchanged |
| Matrices.Matrix.SubtractAssign | OOP1-Matrix/matrix.hpp:266-274 | fails and changes nothing exactly when the sizes differ; otherwise the new value is the element-wise difference of the old values |
| Matrices.Matrix.ScaleAssign | OOP1-Matrix/matrix.hpp:276-281 | every element is multiplied by x and the shape is kept |
| Matrices.Matrix.TransposeRow | OOP1-Matrix/matrix.hpp:291-292 | one pass of the inner tran() loop fills row i of the result with column i of the source and keeps the rows already written |
| Matrices.Matrix.Tran | OOP1-Matrix/matrix.hpp:283-294 | a fresh m by n matrix equal to the transpose, and the source is not modified |
| Matrices.Matrix.Negative | OOP1-Matrix/matrix.hpp:250-254 | corrected unary minus: a fresh negated matrix, and the operand is not modified |
| MatrixOperators.ScaleRight | OOP1-Matrix/matrix.hpp:458-464 | mat * x is a fresh matrix of mat's shape with every element multiplied by x |
| MatrixOperators.ScaleLeft | OOP1-Matrix/matrix.hpp:466-472 | x * mat is the same matrix as mat * x |
| MatrixOperators.Add | OOP1-Matrix/matrix.hpp:487-495 | fails exactly when the shapes differ; otherwise it returns a fresh element-wise sum |
| MatrixOperators.Subtract | OOP1-Matrix/matrix.hpp:497-505 | fails exactly when the shapes differ; otherwise it returns a fresh element-wise difference |
| MatrixOperators.AccumulateDot | OOP1-Matrix/matrix.hpp:482-483 | the innermost product loop adds the full sum over k of a(i, k) * b(k, j) into slot i*b.m + j and changes no other slot |
| MatrixOperators.AccumulateRow | OOP1-Matrix/matrix.hpp:481-483 | one pass of the middle product loop gives every slot of row i its final product value and keeps the rows already done |
| MatrixOperators.Multiply | OOP1-Matrix/matrix.hpp:474-485 | fails exactly when a.columnLength() != b.rowLength(); otherwise it returns a fresh a.n by b.m matrix equal to the product |
| MatrixIterator.Iterator.Advance | OOP1-Matrix/matrix.hpp:327-338 | it + k (and it += k) lies k slots past it and keeps every window field |
| MatrixIterator.Iterator.Retreat | OOP1-Matrix/matrix.hpp:340-351 | it - k (and it -= k) lies k slots before it and keeps every window field |
| MatrixIterator.Iterator.Increment | OOP1-Matrix/matrix.hpp:353-357 | ++it is it += 1 |
| MatrixIterator.Iterator.Decrement | OOP1-Matrix/matrix.hpp:366-370 | --it is it -= 1 |
| MatrixIterator.Iterator.PostIncrement | OOP1-Matrix/matrix.hpp:359-364 | it++ yields the old iterator and leaves it at ++it |
| MatrixIterator.Iterator.PostDecrement | OOP1-Matrix/matrix.hpp:372-377 | it-- yields the old iterator and leaves it at --it |
| MatrixIterator.Iterator.Equal | OOP1-Matrix/matrix.hpp:389-393 | two iterators are == exactly when their distance is 0 |
| MatrixIterator.Iterator.NotEqual | OOP1-Matrix/matrix.hpp:395-399 | != is exactly the negation of == |
| MatrixIterator.Iterator.Distance | OOP1-Matrix/matrix.hpp:322-325 | it - o is the number of slots from o to it: o moved forward by it - o lands on it, and it is 0 exactly at the same position |
| MatrixIterator.Begin | OOP1-Matrix/matrix.hpp:402-413 | begin() is at offset 0, with recorded row and column 0 and window (0, 0) to (n, m) |
| MatrixIterator.End | OOP1-Matrix/matrix.hpp:415-426 | end() is begin() with only the recorded row changed to n, so it is also at offset 0 |
| MatrixIterator.SubMatrix | OOP1-Matrix/matrix.hpp:428-449 | both iterators are at offset 0 with window l to r; the end iterator differs only in its recorded row, r.first - l.first modulo 2^64 |
| MatrixIterator.SubMatrixAnchored | OOP1-Matrix/matrix.hpp:428-449 | corrected subMatrix: the same window fields as subMatrix for both iterators |
| MatrixIterator.SubMatrixAnchoredSpansRows | OOP1-Matrix/matrix.hpp:428-449 | corrected subMatrix: begin is l.first*m + l.second slots past begin(), end is r.first - l.first whole rows past it, and over the whole matrix the pair is (begin(), corrected end()) |
| MatrixIterator.AdvanceRoundTrip | OOP1-Matrix/matrix.hpp:322-338 | (it + k) - it == k, and moving back by k undoes moving forward by k |
| MatrixIterator.IncrementThenDecrement | OOP1-Matrix/matrix.hpp:353-370 | ++ followed by --, or -- followed by ++, restores the iterator |
| MatrixIterator.DistanceAdditive | OOP1-Matrix/matrix.hpp:322-325 | iterator difference is antisymmetric and adds up along a chain |
| MatrixIterator.EqualityIgnoresWindow | OOP1-Matrix/matrix.hpp:389-393 | iterators at one position with different window fields are == though not identical |
| MatrixIterator.BeginEqualsEnd | OOP1-Matrix/matrix.hpp:402-426 | begin() and end() are both at offset 0, so they compare equal; for n > 0 they still differ in the recorded row |
| MatrixIterator.SubMatrixAtOrigin | OOP1-Matrix/matrix.hpp:428-449 | both iterators of subMatrix(l, r) are at offset 0, so they equal each other and begin() for every window |
| MatrixIterator.SubMatrixEndRowWraps | OOP1-Matrix/matrix.hpp:441 | the end iterator's recorded row is r.first - l.first, which wraps modulo 2^64 when r.first < l.first |
| MatrixIterator.EndPastLastSpansBuffer | OOP1-Matrix/matrix.hpp:415-426 | corrected end(): n*m slots past begin(), equal to it exactly when the matrix has no element, with the window fields of end() |

## Left out

- Element-type genericity is left out. The model fixes `T = int`, so the converting constructor and assignment and the `decltype` result types of the free operators are modelled for `U = T = int` only. Floating-point element types are not modelled.
- Memory management is left out. This covers `new[]` and `delete[]`, the destructor, and the move constructor and move assignment (`matrix.hpp:99-120`). They concern ownership, not values. A null buffer is a zero-length array.
- Iterator dereference `*` and `->` are left out. The position is an integer offset from the start of the buffer, nothing bounds-checks it, and the model makes no claim about what a dereference reads.
- The iterator models only pointer arithmetic within one buffer. Iterators of different matrices are not distinguished, because all positions are offsets.
- Exception types and messages are left out. Every `std::invalid_argument` is the `InvalidArgument` result, or `false` for the in-place operators, and it is returned before anything changes.
- `size_t` overflow of `n*m` and of the slot arithmetic is not modelled. Dimensions are `nat`, and the unreachable `i < 0` checks disappear. The only exception is `subMatrix`'s `r.first - l.first`, which is modelled modulo 2^64.
- Matrices.Matrix.FromRows: it requires a non-empty outer list, because the C++ code dereferences `il.begin()` of an empty list, which is undefined behaviour.
- Matrices.Matrix.ConvertAssign: it requires `o != this`. With `U = T` the C++ overload resolution picks the copy assignment, so a `Matrix<U>` of another type is never the same object.
- The returned references of `+=`, `-=`, `*=` and `=` (`*this`) are not modelled. The methods change this matrix in place, and chaining is ordinary sequencing.
- Associativity of the matrix product is not proved. It needs exchanging the order of a double sum, which is a separate development that no operation of the class relies on. Only distributivity over a sum is proved.

## Findings

| source | as written | input that shows it | evidently intended | confidence | as-written member | corrected member |
|---|---|---|---|---|---|---|
| OOP1-Matrix/matrix.hpp:415-426 | end() sets its pointer to the buffer start, the same position as begin() | any matrix with n*m > 0, such as 3x4: begin() == end(), so a loop from begin() to end() visits no element | end() one past the last slot, at offset n*m | not executed | MatrixIterator.BeginEqualsEnd | MatrixIterator.EndPastLastSpansBuffer |
| OOP1-Matrix/matrix.hpp:250-254 | the const unary operator- negates the operand's own buffer and then returns a copy | -a for a = [[1]] leaves a equal to [[-1]] | a new negated matrix, with the operand unchanged | not executed | MatrixSpec.NegatedChanges | Matrices.Matrix.Negative |
| OOP1-Matrix/matrix.hpp:428-449 | subMatrix(l, r) sets both pointers to the buffer start | subMatrix((1, 1), (2, 2)) of a 3x3 matrix: both iterators equal begin(), at element (0, 0) rather than (1, 1) | begin at element l, slot l.first*m + l.second, and end r.first - l.first rows further on | not executed | MatrixIterator.SubMatrixAtOrigin | MatrixIterator.SubMatrixAnchoredSpansRows |
