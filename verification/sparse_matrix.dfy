/**
 * The sparse matrix object: a dictionary from (row, column) to value plus a
 * declared row and column count. Element access, transposition, addition,
 * subtraction and multiplication build their results entry by entry; loading
 * and saving work on the lines of the text form.
 */
module SparseMatrices {
  import opened EntryMaps
  import opened LineFormat

  datatype Result<T, E> = Success(value: T) | Failure(error: E)

  /** Why a product cannot be formed. */
  datatype MultiplyError = DimensionMismatch

  /** Why a text cannot be loaded: line `index` is missing, or holds no digit. */
  datatype LoadError = MissingLine(index: nat) | NoDigitInHeader(index: nat)

  class SparseMatrix {
    var matrix: map<Coord, int>
    var numRows: int
    var numCols: int

    /** An empty matrix of the given shape. */
    constructor(numRows: int := 0, numCols: int := 0)
      ensures this.matrix == map[]
      ensures this.numRows == numRows && this.numCols == numCols
    {
      this.matrix := map[];
      this.numRows := numRows;
      this.numCols := numCols;
    }

    /** The value at (row, col): the stored one, or 0 when nothing is stored there. */
    function GetElement(row: int, col: int): (v: int)
      reads this
      ensures (row, col) in matrix ==> v == matrix[(row, col)]
      ensures (row, col) !in matrix ==> v == 0
    {
      Lookup(matrix, (row, col))
    }

    /** Stores a non-zero value; storing 0 removes the key instead. */
    method SetElement(row: int, col: int, value: int)
      modifies this
      ensures value == 0 ==> matrix == old(matrix) - {(row, col)}
      ensures value != 0 ==> matrix == old(matrix)[(row, col) := value]
      ensures numRows == old(numRows) && numCols == old(numCols)
      ensures GetElement(row, col) == value
      ensures forall c :: c != (row, col) ==> Lookup(matrix, c) == Lookup(old(matrix), c)
      ensures (forall c :: c in old(matrix) ==> old(matrix)[c] != 0) ==> forall c :: c in matrix ==> matrix[c] != 0
    {
      if value == 0 {
        matrix := matrix - {(row, col)};
      } else {
        matrix := matrix[(row, col) := value];
      }
    }

    /** A new matrix with the shape swapped and every entry (r, c) moved to (c, r). */
    method Transpose() returns (t: SparseMatrix)
      ensures fresh(t)
      ensures t.numRows == numCols && t.numCols == numRows
      ensures t.matrix == TransposeEntries(matrix)
    {
      t := new SparseMatrix(numCols, numRows);
      var remaining := matrix.Keys;
      while remaining != {}
        invariant remaining <= matrix.Keys
        invariant t.numRows == numCols && t.numCols == numRows
        invariant forall c :: c in t.matrix <==> Swap(c) in matrix && Swap(c) !in remaining
        invariant forall c :: c in t.matrix ==> t.matrix[c] == matrix[Swap(c)]
        decreases remaining
      {
        var key :| key in remaining;
        t.matrix := t.matrix[Swap(key) := matrix[key]];
        remaining := remaining - {key};
      }
      assert t.matrix.Keys == TransposeEntries(matrix).Keys;
    }

    /**
     * A new matrix of the larger shape holding every key of either operand,
     * each with the sum of the two values.
     */
    method Add(other: SparseMatrix) returns (result: SparseMatrix)
      ensures fresh(result)
      ensures result.numRows == Max(numRows, other.numRows)
      ensures result.numCols == Max(numCols, other.numCols)
      ensures result.matrix == AddEntries(matrix, other.matrix)
    {
      result := new SparseMatrix(Max(numRows, other.numRows), Max(numCols, other.numCols));
      var remaining := matrix.Keys;
      while remaining != {}
        invariant remaining <= matrix.Keys
        invariant result.numRows == Max(numRows, other.numRows) && result.numCols == Max(numCols, other.numCols)
        invariant forall c :: c in result.matrix <==> c in matrix && c !in remaining
        invariant forall c :: c in result.matrix ==> result.matrix[c] == matrix[c]
        decreases remaining
      {
        var key :| key in remaining;
        result.matrix := result.matrix[key := result.GetElement(key.0, key.1) + matrix[key]];
        remaining := remaining - {key};
      }
      remaining := other.matrix.Keys;
      while remaining != {}
        invariant remaining <= other.matrix.Keys
        invariant result.numRows == Max(numRows, other.numRows) && result.numCols == Max(numCols, other.numCols)
        invariant result.matrix.Keys == matrix.Keys + (other.matrix.Keys - remaining)
        invariant forall c :: Lookup(result.matrix, c) == Lookup(matrix, c) + (if c in remaining then 0 else Lookup(other.matrix, c))
        decreases remaining
      {
        var key :| key in remaining;
        result.matrix := result.matrix[key := result.GetElement(key.0, key.1) + other.matrix[key]];
        remaining := remaining - {key};
      }
      SameLookups(result.matrix, AddEntries(matrix, other.matrix));
    }

    /**
     * A new matrix of the larger shape holding every key of either operand,
     * each with this value minus the other's.
     */
    method Subtract(other: SparseMatrix) returns (result: SparseMatrix)
      ensures fresh(result)
      ensures result.numRows == Max(numRows, other.numRows)
      ensures result.numCols == Max(numCols, other.numCols)
      ensures result.matrix == SubtractEntries(matrix, other.matrix)
    {
      result := new SparseMatrix(Max(numRows, other.numRows), Max(numCols, other.numCols));
      var remaining := matrix.Keys;
      while remaining != {}
        invariant remaining <= matrix.Keys
        invariant result.numRows == Max(numRows, other.numRows) && result.numCols == Max(numCols, other.numCols)
        invariant forall c :: c in result.matrix <==> c in matrix && c !in remaining
        invariant forall c :: c in result.matrix ==> result.matrix[c] == matrix[c]
        decreases remaining
      {
        var key :| key in remaining;
        result.matrix := result.matrix[key := result.GetElement(key.0, key.1) + matrix[key]];
        remaining := remaining - {key};
      }
      remaining := other.matrix.Keys;
      while remaining != {}
        invariant remaining <= other.matrix.Keys
        invariant result.numRows == Max(numRows, other.numRows) && result.numCols == Max(numCols, other.numCols)
        invariant result.matrix.Keys == matrix.Keys + (other.matrix.Keys - remaining)
        invariant forall c :: Lookup(result.matrix, c) == Lookup(matrix, c) - (if c in remaining then 0 else Lookup(other.matrix, c))
        decreases remaining
      {
        var key :| key in remaining;
        result.matrix := result.matrix[key := result.GetElement(key.0, key.1) - other.matrix[key]];
        remaining := remaining - {key};
      }
      SameLookups(result.matrix, SubtractEntries(matrix, other.matrix));
    }

    /**
     * The product, when this column count equals the other's row count: for
     * every stored entry (r, c) -> v and every k below the other's column
     * count, position (r, k) accumulates v * other[c, k].
     */
    method Multiply(other: SparseMatrix) returns (r: Result<SparseMatrix, MultiplyError>)
      ensures r.Failure? <==> numCols != other.numRows
      ensures r.Success? ==> fresh(r.value)
      ensures r.Success? ==> r.value.numRows == numRows && r.value.numCols == other.numCols
      ensures r.Success? ==> r.value.matrix == ProductEntries(matrix, other.matrix, other.numCols)
    {
      if numCols != other.numRows {
        return Failure(DimensionMismatch);
      }
      var n := other.numCols;
      var result := new SparseMatrix(numRows, n);
      var remaining := matrix.Keys;
      while remaining != {}
        invariant remaining <= matrix.Keys
        invariant fresh(result)
        invariant result.numRows == numRows && result.numCols == n
        invariant result.matrix == PartialProduct(matrix, matrix.Keys - remaining, other.matrix, n)
        decreases remaining
      {
        var key :| key in remaining;
        ghost var done := matrix.Keys - remaining;
        StartRow(matrix, done, key, other.matrix, n);
        result.AccumulateRow(key.0, key.1, matrix[key], other, matrix, done, key);
        FinishRow(matrix, done, key, other.matrix, n, Max(n, 0), result.matrix);
        remaining := remaining - {key};
        assert matrix.Keys - remaining == done + {key};
      }
      assert matrix.Keys - remaining == matrix.Keys;
      return Success(result);
    }

    /**
     * The inner loop of the product, run on the result: adds value * other[col, k]
     * to position (row, k) for every k below the other matrix's column count.
     */
    method AccumulateRow(row: int, col: int, value: int, other: SparseMatrix,
                         ghost a: map<Coord, int>, ghost done: set<Coord>, ghost key: Coord)
      requires other != this
      requires key == (row, col) && key in a && a[key] == value
      requires RowInProgress(a, done, key, other.matrix, other.numCols, 0, matrix)
      modifies this
      ensures numRows == old(numRows) && numCols == old(numCols)
      ensures RowInProgress(a, done, key, other.matrix, other.numCols, Max(other.numCols, 0), matrix)
    {
      ghost var b, n := other.matrix, other.numCols;
      var k := 0;
      while k < other.numCols
        invariant 0 <= k <= Max(n, 0)
        invariant numRows == old(numRows) && numCols == old(numCols)
        invariant RowInProgress(a, done, key, b, n, k, matrix)
      {
        var current, factor := GetElement(row, k), other.GetElement(col, k);
        var sum := current + value * factor;
        RowStep(a, done, key, b, n, k, matrix, sum);
        assert (row, k) == (key.0, k);
        matrix := matrix[(row, k) := sum];
        k := k + 1;
      }
    }

    /**
     * The lines written for this matrix: "rows=N", "cols=M", then one
     * "(r, c, v)" line per stored key in ascending (row, col) order, each
     * line ended by a newline.
     */
    method SaveToLines() returns (lines: seq<string>)
      ensures lines == SavedLines(numRows, numCols, matrix)
    {
      lines := Header(numRows, numCols);
      var remaining := matrix.Keys;
      ghost var written: seq<Coord> := [];
      while remaining != {}
        invariant remaining <= matrix.Keys
        invariant forall c :: c in written ==> c in matrix
        invariant written + SortedKeys(remaining) == SortedKeys(matrix.Keys)
        invariant lines == Header(numRows, numCols) + EntryLines(matrix, written)
        decreases remaining
      {
        var key := LeastKey(remaining);
        SortedKeysStep(remaining, key);
        Associative(written, [key], SortedKeys(remaining - {key}));
        EntryLinesSnoc(matrix, written, key);
        Associative(Header(numRows, numCols), EntryLines(matrix, written), [EntryLine(key, matrix[key])]);
        lines := lines + [EntryLine(key, matrix[key])];
        written := written + [key];
        remaining := remaining - {key};
      }
      RightUnit(written);
    }

    /**
     * Reads the text form from its lines: the row count from the first run of
     * digits of line 0, the column count from that of line 1, then every
     * later line that starts with an entry stores its value, a later line for
     * the same key overwriting an earlier one. Entries already stored stay.
     * A missing line or a header line without digits stops the load with an
     * error, after the fields read so far have been set.
     */
    method LoadFromLines(lines: seq<string>) returns (error: Option<LoadError>)
      modifies this
      ensures |lines| == 0 ==> error == Some(MissingLine(0)) && numRows == old(numRows)
      ensures |lines| > 0 && FirstDigitRun(lines[0]).None? ==> error == Some(NoDigitInHeader(0)) && numRows == old(numRows)
      ensures |lines| > 0 && FirstDigitRun(lines[0]).Some? ==> numRows == FirstDigitRun(lines[0]).value
      ensures |lines| == 1 && FirstDigitRun(lines[0]).Some? ==> error == Some(MissingLine(1))
      ensures |lines| > 1 && FirstDigitRun(lines[0]).Some? && FirstDigitRun(lines[1]).None? ==> error == Some(NoDigitInHeader(1))
      ensures error.Some? ==> numCols == old(numCols) && matrix == old(matrix)
      ensures |lines| > 1 && FirstDigitRun(lines[0]).Some? && FirstDigitRun(lines[1]).Some? ==>
        && error.None?
        && numCols == FirstDigitRun(lines[1]).value
        && matrix == ApplyEntryLines(old(matrix), lines[2..])
    {
      if |lines| == 0 {
        return Some(MissingLine(0));
      }
      var rows := FirstDigitRun(lines[0]);
      if rows.None? {
        return Some(NoDigitInHeader(0));
      }
      numRows := rows.value;
      if |lines| == 1 {
        return Some(MissingLine(1));
      }
      var cols := FirstDigitRun(lines[1]);
      if cols.None? {
        return Some(NoDigitInHeader(1));
      }
      numCols := cols.value;
      ReadEntryLines(lines[2..]);
      return None;
    }

    /** Reads every entry line into the existing entries, leaving the shape alone. */
    method ReadEntryLines(lines: seq<string>)
      modifies this
      ensures numRows == old(numRows) && numCols == old(numCols)
      ensures matrix == ApplyEntryLines(old(matrix), lines)
    {
      var i := 0;
      while i < |lines|
        invariant 0 <= i <= |lines|
        invariant numRows == old(numRows) && numCols == old(numCols)
        invariant matrix == ApplyEntryLines(old(matrix), lines[..i])
      {
        ApplyNextLine(old(matrix), lines[..i], lines[i]);
        assert lines[..i + 1] == lines[..i] + [lines[i]];
        var entry := MatchEntry(lines[i]);
        if entry.Some? {
          matrix := matrix[CoordOf(entry.value) := entry.value.value];
        }
        i := i + 1;
      }
      assert lines[..i] == lines;
    }
  }

  lemma Associative<T>(a: seq<T>, b: seq<T>, c: seq<T>)
    ensures a + b + c == a + (b + c)
  {
  }

  lemma RightUnit<T>(a: seq<T>)
    ensures a + [] == a
  {
  }

  /** Two maps that agree on every lookup and hold the same keys are equal. */
  lemma SameLookups(a: map<Coord, int>, b: map<Coord, int>)
    requires a.Keys == b.Keys
    requires forall c :: Lookup(a, c) == Lookup(b, c)
    ensures a == b
  {
    forall c | c in a
      ensures a[c] == b[c]
    {
      assert Lookup(a, c) == Lookup(b, c);
    }
  }

}
