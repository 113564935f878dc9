# Sparse matrix model

A model of the `SparseMatrix` class of `main.py`. A matrix is a dictionary
from `(row, col)` to an integer value plus a declared row count and column
count. Positions with no key read as 0.

The class is modelled as the Dafny class `SparseMatrices.SparseMatrix` with
the same three fields. It has the same operations:

- element read and write;
- transpose, add, subtract and multiply, each building a new matrix entry by entry;
- loading from and saving to the line-oriented text form:
  - `rows=N`
  - `cols=M`
  - one `(row, col, value)` line per entry.

Each method is proved against a specification function on maps, in module
`EntryMaps` or `LineFormat`. The lemmas next to those functions state what
the operations promise. Module `Numerals` holds the digit and whitespace
classes and the decimal conversions the text form uses.

Points where the code differs from a tidy mathematical reading, modelled as
the code does them:

- Only `set_element` keeps zeros out of the dictionary. Add and subtract keep
  every key of either operand even when the sum is 0 (`ExampleDifference`).
  The product stores a key for every column of every row that the left
  operand uses (`ExampleProduct`, `ProductKeySet`). A reader might expect
  A - A or A * I to drop the zero-valued keys; the code keeps them, and so
  does the model.
- Loading does not clear the dictionary first. Entries already stored stay,
  unless a line of the file overwrites them.
- A missing second header line, or one without a digit, stops the load after
  the row count has already been set.
- Saving writes negative coordinates with a `-`, which the entry pattern does
  not accept. Such entries are lost on reading back (`NegativeCoordNotRead`).
- Saving writes a negative row or column count with a `-` as well, say
  `rows=-3`. The header scan takes the first run of digits and skips the `-`,
  so the count reads back as 3 (`HeaderReadsMagnitude`).
- The save/load round trip therefore holds for non-negative coordinates and
  a non-negative shape.

## Model

| member | source | states |
|---|---|---|
| SparseMatrices.SparseMatrix.constructor | main.py:4-7 | a new matrix has no entries and the given row and column counts (both default 0) |
| SparseMatrices.SparseMatrix.GetElement | main.py:25-27 | a stored key reads as its value, any other position reads as 0 |
| SparseMatrices.SparseMatrix.SetElement | main.py:29-34 | 0 removes the key, any other value is stored; afterwards the position reads as the value, every other position reads as before, the shape is unchanged, and a zero-free dictionary stays zero-free |
| SparseMatrices.SparseMatrix.Transpose | main.py:36-41 | returns a new matrix with rows and columns swapped whose dictionary is the transposed dictionary; the receiver is not modified |
| EntryMaps.TransposeEntries | main.py:39-40 | (c, r) is a key of the transpose exactly when (r, c) is a key of the original, with the same value |
| EntryMaps.TransposeInvolution | main.py:36-41 | transposing twice gives back the same dictionary |
| EntryMaps.TransposeKeepsCount | main.py:39-40 | transposing keeps the number of stored keys |
| SparseMatrices.SparseMatrix.Add | main.py:43-53 | returns a new matrix of the larger row and column counts whose dictionary is the entrywise sum over the keys of both operands |
| EntryMaps.AddEntries | main.py:47-51 | the sum holds exactly the keys of either operand, and each position reads as the sum of the two readings |
| SparseMatrices.SparseMatrix.Subtract | main.py:55-65 | returns a new matrix of the larger row and column counts whose dictionary is the entrywise difference over the keys of both operands |
| EntryMaps.SubtractEntries | main.py:59-63 | the difference holds exactly the keys of either operand, and each position reads as the first reading minus the second |
| EntryMaps.AddThenSubtract | main.py:43-65 | (A + B) - B reads as A at every position, while it still stores every key of B |
| EntryMaps.ExampleSum | main.py:43-53 | diag(1, 2) + identity stores diag(2, 3) |
| EntryMaps.ExampleDifference | main.py:55-65 | diag(1, 2) - identity keeps the key (0, 0) holding 0 |
| SparseMatrices.SparseMatrix.Multiply | main.py:67-78 | fails exactly when the left column count differs from the right row count; otherwise returns a new matrix of shape (left rows, right columns) whose dictionary is the sparse product |
| SparseMatrices.SparseMatrix.AccumulateRow | main.py:75-76 | for one stored entry (r, c) -> v, adds v * other[c, k] to position (r, k) for every k below the right column count, taking the partial product from "row r not started" to "row r done" |
| EntryMaps.StartRow | main.py:74-76 | before a key is handled, the entries built so far are the partial product over the keys already handled |
| EntryMaps.RowStep | main.py:76 | one accumulation step at column k extends the handled part of the key's row by that column |
| EntryMaps.StepValue | main.py:76 | the value stored at (r, k), plus the new key's term, is the sum over the handled keys and the new key |
| EntryMaps.FinishRow | main.py:74-76 | once every column of the row is handled, the entries are the partial product over the handled keys and the new key |
| EntryMaps.RowProductRemove | main.py:74-76 | the sum over stored keys does not depend on the order the keys are visited: taking out any one key takes out exactly its term |
| EntryMaps.RowProductOffRow | main.py:74-76 | keys outside row r add nothing to row r |
| EntryMaps.RowProductUnion | main.py:74-76 | the sum over two disjoint key sets is the sum of the two sums |
| EntryMaps.ProductEntries | main.py:71-76 | the dictionary the product builds; no contract of its own, its keys and values are stated by `ProductKeySet` and `ProductLookup` |
| EntryMaps.ProductLookup | main.py:71-76 | position (r, k) of the product, with k below the right column count, reads as the sum over left keys (r, c) of value * other[c, k]; it is stored exactly when row r holds a left key |
| EntryMaps.ProductKeySet | main.py:74-76 | the product stores exactly the columns 0 .. n-1 of every row that holds a key of the left operand |
| EntryMaps.RowPrefixProduct | main.py:74-76 | the sum over the row's keys in columns below j equals the dense row-by-column sum over those columns |
| EntryMaps.ProductIsMatrixProduct | main.py:67-78 | when every left key lies in columns 0 .. inner-1, each product position is the ordinary matrix product |
| EntryMaps.ExampleProduct | main.py:67-78 | diag(1, 2) * identity stores all four positions, including the two zeros |
| SparseMatrices.SparseMatrix.SaveToLines | main.py:80-89 | returns the lines the save writes: the header lines, then one entry line per stored key in sorted key order |
| LineFormat.SavedLines | main.py:84-87 | every line the save writes; no contract of its own, its shape is stated by `SavedLinesShape` and its reading back by `SaveLoadRoundTrip` |
| LineFormat.Header | main.py:84-85 | the two header lines; no contract of its own, its behaviour is stated by `HeaderThen`, `HeaderRoundTrip` and `HeaderReadsMagnitude` |
| LineFormat.SavedLinesShape | main.py:84-87 | the written lines are "rows=N\n", "cols=M\n", then one "(r, c, v)\n" line per stored key, each key once, in strictly ascending (row, col) order |
| LineFormat.HeaderThen | main.py:84-85 | the two header lines come first, whatever entry lines follow |
| LineFormat.LeastKey | main.py:86 | finds the first stored key in (row, col) order |
| LineFormat.SortedKeysStep | main.py:86 | sorted key order starts with the least key and continues with the sorted rest |
| LineFormat.SortedKeys | main.py:86 | the sorted keys hold every key once, in strictly ascending order |
| SparseMatrices.SparseMatrix.LoadFromLines | main.py:9-23 | no first line or no digit in it is an error that leaves the matrix unchanged; otherwise the row count is set; no second line or no digit in it is an error that leaves the column count and entries unchanged; otherwise the column count is set and every later line is read into the existing entries |
| SparseMatrices.SparseMatrix.ReadEntryLines | main.py:17-21 | reads every entry line, in order, into the existing dictionary (the same result as `ApplyEntryLines` on the old entries); the row and column counts are unchanged |
| LineFormat.FirstDigitRun | main.py:14-15 | a header line gives no count exactly when it has no digit |
| LineFormat.FirstDigitRunOf | main.py:14-15 | the count is the value of the first whole digit run, whatever digit-free text comes before it |
| LineFormat.HeaderRoundTrip | main.py:14-15 | the header lines written for a non-negative row count and a non-negative column count read back as those counts |
| LineFormat.HeaderReadsMagnitude | main.py:14-15 | the header lines written for any row and column counts read back as their magnitudes: a negative count loses its sign |
| LineFormat.CountLineRead | main.py:14-15 | a count written after a digit-free label reads back as the count when it is non-negative and as its magnitude when it is negative, because the digit scan skips the `-` |
| LineFormat.MatchEntry | main.py:18 | the anchored match of the entry pattern; no contract of its own, its behaviour is stated by `MatchEntryComplete` and `MatchEntrySound` |
| LineFormat.MatchEntryComplete | main.py:18-20 | every line that starts with text of the pattern `(digits, spaces digits, spaces -?digits)` matches, with the three numbers captured |
| LineFormat.MatchEntrySound | main.py:18-20 | every line that matches starts with text of the entry pattern, and the captured numbers are the numbers of that text |
| LineFormat.ApplyEntryLines | main.py:17-21 | reading entry lines never removes a key |
| LineFormat.ApplyNextLine | main.py:17-21 | reading one more line stores its captured entry, if any, over what the earlier lines gave |
| LineFormat.LastEntryWins | main.py:19-21 | the last entry for a key decides its value |
| LineFormat.LastLineWins | main.py:17-21 | the last matching line for a key decides its value |
| LineFormat.UnmatchedEntryKept | main.py:19-21 | a key no entry names keeps its presence and its value |
| LineFormat.UnmatchedCoordKept | main.py:17-21 | a key that no line matches keeps its presence and its value |
| LineFormat.ExampleLines | main.py:18-20 | "(0, 1, 5)\n" is the entry 5 at (0, 1), and "garbage\n" is no entry |
| LineFormat.GarbageLineSkipped | main.py:17-21 | an entry line followed by a non-matching line reads as the one entry |
| LineFormat.ReadTwoLines | main.py:17-21 | reading two lines stores the first line's entry, then the second's |
| LineFormat.EntryLine | main.py:87 | the text written for one entry; no contract of its own, its behaviour is stated by `EntryLineIsEntryText`, `EntryLineRoundTrip` and `NegativeCoordNotRead` |
| LineFormat.EntryLineIsEntryText | main.py:87 | a written entry line with non-negative coordinates is text of the entry pattern, with one space after each comma |
| LineFormat.EntryLineRoundTrip | main.py:87 | a written entry line with non-negative coordinates reads back as the same coordinates and value |
| LineFormat.NegativeCoordNotRead | main.py:87 | a written entry line with a negative row or a negative column does not match the entry pattern |
| LineFormat.ApplyMatchingEntries | main.py:17-21 | when the i-th entry carries the i-th key with that key's value in a dictionary, reading the entries stores exactly those keys, each with its value in that dictionary |
| LineFormat.EntryLinesRoundTrip | main.py:86-87 | the entry lines written for keys with non-negative coordinates read back as exactly those keys and values |
| LineFormat.EntriesRoundTrip | main.py:86-87 | the entry lines written for a dictionary with non-negative keys read back as that dictionary |
| LineFormat.SaveLoadRoundTrip | main.py:84-87 | for a non-negative shape and non-negative keys, reading back the saved lines gives the same counts and the same dictionary |
| Numerals.IntToString | main.py:84-87 | the decimal text `str()` writes for an integer is non-empty, starts with `-` exactly when the integer is negative, and is all digits after that sign |
| Numerals.NatToStringRoundTrip | main.py:20 | reading back the decimal text of a number gives the number |
| Numerals.SpanDigits | main.py:18 | the digit run measured is maximal: every character before it is a digit, the one after it is not |
| Numerals.SpanSpaces | main.py:18 | the whitespace run measured is maximal |
| Numerals.SpanNonDigits | main.py:14 | the digit-free prefix measured ends at the first digit |
| Numerals.SpanDigitsOf | main.py:18 | a digit run followed by a non-digit is read whole |
| Numerals.SpanSpacesOf | main.py:18 | a whitespace run followed by a non-space is skipped whole |
| Numerals.SpanNonDigitsOf | main.py:14 | digit-free text before a digit is skipped whole |

## Left out

- File I/O is left out. The model works on the list of lines that `readlines` returns, each line still ending in its newline, and on the list of lines written.
- The wrapping of any exception into a `ValueError` is left out. A load error is a `LoadError` value naming the line that is missing or has no digit.
- The regular-expression engine is left out. `re.search(r'\d+')` and the anchored `re.match` of the entry pattern are hand-written scanners that are proved sound and complete against the pattern.
- `\d` and `int()` also accept non-ASCII decimal digits. The model takes ASCII digits only; `\s` is modelled as Python's full whitespace set.
- `int()` refuses digit strings longer than 4300 characters, and `str()` and the f-strings of the save refuse to write an integer of more than 4300 digits. Such a count, coordinate or value makes the save fail with a `ValueError` after the lines before it are written. Add and multiply can build such values from loadable ones. The model reads and writes numbers of any length: `SaveToLines` never fails, and `SaveLoadRoundTrip` also covers values the program cannot save.
- Dictionary iteration order is left out. The loops take keys in any order; `RowProductRemove` and the add/subtract invariants show the result does not depend on the order.
- `sorted()` is modelled by repeated selection of the least key (`LeastKey`), not by Python's sort algorithm. Only the order of the output lines matters.
- `get_matrix_operation` and `main` are left out. They only read the user's choice and file names and print results.
- LineFormat.ApplyEntryLines: its contract only says that keys are never removed. The full behaviour is stated by `LastLineWins`, `UnmatchedCoordKept` and `ApplyNextLine`.
- Integer width: Python integers are unbounded, so the model's unbounded `int` is exact.
