/**
 * The coordinate maps a sparse matrix stores, and what transposing, adding,
 * subtracting and multiplying do to them. A coordinate absent from a map
 * reads as 0; a coordinate present may still hold 0, since only
 * SetElement keeps zeros out.
 */
module EntryMaps {

  /** A (row, column) key. */
  type Coord = (int, int)

  function Max(a: int, b: int): int {
    if a >= b then a else b
  }

  /** The value a lookup with default 0 gives. */
  function Lookup(m: map<Coord, int>, c: Coord): int {
    if c in m then m[c] else 0
  }

  function Swap(c: Coord): Coord {
    (c.1, c.0)
  }

  // ---------------------------------------------------------------- transpose

  /** Every entry (r, c) -> v moved to (c, r) -> v. */
  function TransposeEntries(m: map<Coord, int>): (t: map<Coord, int>)
    ensures forall c :: c in t <==> Swap(c) in m
    ensures forall c :: c in m ==> Swap(c) in t && t[Swap(c)] == m[c]
  {
    map c | c in m :: Swap(c) := m[c]
  }

  /** Transposing twice gives back the same map. */
  lemma TransposeInvolution(m: map<Coord, int>)
    ensures TransposeEntries(TransposeEntries(m)) == m
  {
    var tt := TransposeEntries(TransposeEntries(m));
    assert forall c :: Swap(Swap(c)) == c;
    assert tt.Keys == m.Keys;
  }

  function SwapAll(s: set<Coord>): set<Coord> {
    set c | c in s :: Swap(c)
  }

  lemma {:induction false} SwapAllKeepsSize(s: set<Coord>)
    ensures |SwapAll(s)| == |s|
    decreases s
  {
    if s != {} {
      var k :| k in s;
      SwapAllKeepsSize(s - {k});
      assert SwapAll(s) == SwapAll(s - {k}) + {Swap(k)};
      assert Swap(k) !in SwapAll(s - {k});
    }
  }

  /** Transposing keeps the number of stored keys. */
  lemma TransposeKeepsCount(m: map<Coord, int>)
    ensures |TransposeEntries(m)| == |m|
  {
    var t := TransposeEntries(m);
    assert t.Keys == SwapAll(m.Keys);
    SwapAllKeepsSize(m.Keys);
    assert |t| == |t.Keys| && |m| == |m.Keys|;
  }

  // ---------------------------------------------------------- add and subtract

  /** Keys of both operands, each holding the sum of the two lookups. */
  function AddEntries(a: map<Coord, int>, b: map<Coord, int>): (r: map<Coord, int>)
    ensures r.Keys == a.Keys + b.Keys
    ensures forall c :: Lookup(r, c) == Lookup(a, c) + Lookup(b, c)
  {
    map c | c in a.Keys + b.Keys :: Lookup(a, c) + Lookup(b, c)
  }

  /** Keys of both operands, each holding the difference of the two lookups. */
  function SubtractEntries(a: map<Coord, int>, b: map<Coord, int>): (r: map<Coord, int>)
    ensures r.Keys == a.Keys + b.Keys
    ensures forall c :: Lookup(r, c) == Lookup(a, c) - Lookup(b, c)
  {
    map c | c in a.Keys + b.Keys :: Lookup(a, c) - Lookup(b, c)
  }

  /** Subtracting B after adding it gives back A at every coordinate, though keys of B stay stored. */
  lemma AddThenSubtract(a: map<Coord, int>, b: map<Coord, int>)
    ensures SubtractEntries(AddEntries(a, b), b).Keys == a.Keys + b.Keys
    ensures forall c :: Lookup(SubtractEntries(AddEntries(a, b), b), c) == Lookup(a, c)
  {
  }

  // ------------------------------------------------------------------ multiply

  /** What the stored entry `key` of the left operand adds to result position (row, col). */
  function Term(a: map<Coord, int>, b: map<Coord, int>, key: Coord, row: int, col: int): int
    requires key in a
  {
    if key.0 == row then a[key] * Lookup(b, (key.1, col)) else 0
  }

  /** The sum of Term over a set of keys of the left operand. */
  ghost function RowProduct(a: map<Coord, int>, keys: set<Coord>, b: map<Coord, int>, row: int, col: int): int
    requires keys <= a.Keys
  {
    if keys == {} then 0
    else
      var key :| key in keys;
      RowProduct(a, keys - {key}, b, row, col) + Term(a, b, key, row, col)
  }

  /** The rows that hold at least one of `keys`. */
  function Rows(keys: set<Coord>): set<int> {
    set key | key in keys :: key.0
  }

  /** One result position per row holding a key and per column below n. */
  function ProductKeys(keys: set<Coord>, n: int): set<Coord> {
    set r, k | r in Rows(keys) && 0 <= k < n :: (r, k)
  }

  /** The entries the sparse product builds from the keys `keys` of the left operand. */
  ghost function PartialProduct(a: map<Coord, int>, keys: set<Coord>, b: map<Coord, int>, n: int): map<Coord, int>
    requires keys <= a.Keys
  {
    map c | c in ProductKeys(keys, n) :: RowProduct(a, keys, b, c.0, c.1)
  }

  /** The entries of the sparse product of `a` with a right operand `b` of n columns. */
  ghost function ProductEntries(a: map<Coord, int>, b: map<Coord, int>, n: int): map<Coord, int> {
    PartialProduct(a, a.Keys, b, n)
  }

  /** Taking any one key out of the sum takes out exactly its term. */
  lemma {:induction false} RowProductRemove(a: map<Coord, int>, keys: set<Coord>, b: map<Coord, int>, row: int, col: int, key: Coord)
    requires keys <= a.Keys && key in keys
    ensures RowProduct(a, keys, b, row, col) == RowProduct(a, keys - {key}, b, row, col) + Term(a, b, key, row, col)
    decreases keys
  {
    var x :| x in keys && RowProduct(a, keys, b, row, col) == RowProduct(a, keys - {x}, b, row, col) + Term(a, b, x, row, col);
    if x != key {
      RowProductRemove(a, keys - {x}, b, row, col, key);
      RowProductRemove(a, keys - {key}, b, row, col, x);
      assert keys - {x} - {key} == keys - {key} - {x};
    }
  }

  /** Keys outside the row contribute nothing. */
  lemma {:induction false} RowProductOffRow(a: map<Coord, int>, keys: set<Coord>, b: map<Coord, int>, row: int, col: int)
    requires keys <= a.Keys
    requires forall key :: key in keys ==> key.0 != row
    ensures RowProduct(a, keys, b, row, col) == 0
    decreases keys
  {
    if keys != {} {
      var key :| key in keys && RowProduct(a, keys, b, row, col) == RowProduct(a, keys - {key}, b, row, col) + Term(a, b, key, row, col);
      RowProductOffRow(a, keys - {key}, b, row, col);
      assert Term(a, b, key, row, col) == 0;
      assert RowProduct(a, keys - {key}, b, row, col) == 0;
    }
  }

  /** The sum over two disjoint key sets is the sum of the two sums. */
  lemma {:induction false} RowProductUnion(a: map<Coord, int>, keys1: set<Coord>, keys2: set<Coord>, b: map<Coord, int>, row: int, col: int)
    requires keys1 <= a.Keys && keys2 <= a.Keys && keys1 !! keys2
    ensures RowProduct(a, keys1 + keys2, b, row, col) == RowProduct(a, keys1, b, row, col) + RowProduct(a, keys2, b, row, col)
    decreases keys2
  {
    if keys2 != {} {
      var y :| y in keys2;
      RowProductRemove(a, keys1 + keys2, b, row, col, y);
      assert (keys1 + keys2) - {y} == keys1 + (keys2 - {y});
      RowProductUnion(a, keys1, keys2 - {y}, b, row, col);
      RowProductRemove(a, keys2, b, row, col, y);
    } else {
      assert keys1 + keys2 == keys1;
    }
  }

  /**
   * The entries while the sparse product handles `key` after the keys `done`:
   * columns below k of key's row already hold the sum including `key`, every
   * other position holds the sum over `done` alone.
   */
  ghost predicate RowInProgress(a: map<Coord, int>, done: set<Coord>, key: Coord, b: map<Coord, int>, n: int, k: int, m: map<Coord, int>) {
    && done <= a.Keys && key in a && key !in done
    && (forall c :: c in m <==> c in ProductKeys(done, n) || (c.0 == key.0 && 0 <= c.1 < k))
    && (forall c :: c in m ==> m[c] == RowProduct(a, if c.0 == key.0 && c.1 < k then done + {key} else done, b, c.0, c.1))
  }

  lemma StartRow(a: map<Coord, int>, done: set<Coord>, key: Coord, b: map<Coord, int>, n: int)
    requires done <= a.Keys && key in a && key !in done
    ensures RowInProgress(a, done, key, b, n, 0, PartialProduct(a, done, b, n))
  {
  }

  /** Adding key's term at (key.0, k) to what is stored there extends the row by one column. */
  lemma RowStep(a: map<Coord, int>, done: set<Coord>, key: Coord, b: map<Coord, int>, n: int, k: int, m: map<Coord, int>, v: int)
    requires RowInProgress(a, done, key, b, n, k, m) && 0 <= k < n
    requires v == Lookup(m, (key.0, k)) + a[key] * Lookup(b, (key.1, k))
    ensures RowInProgress(a, done, key, b, n, k + 1, m[(key.0, k) := v])
  {
    StepValue(a, done, key, b, n, k, m);
    var m' := m[(key.0, k) := v];
    forall c
      ensures c in m' <==> c in ProductKeys(done, n) || (c.0 == key.0 && 0 <= c.1 < k + 1)
    {
    }
    forall c | c in m'
      ensures m'[c] == RowProduct(a, if c.0 == key.0 && c.1 < k + 1 then done + {key} else done, b, c.0, c.1)
    {
      if c != (key.0, k) {
        assert m'[c] == m[c];
      }
    }
  }

  /** The value stored at (key.0, k) plus key's term there is the sum including `key`. */
  lemma StepValue(a: map<Coord, int>, done: set<Coord>, key: Coord, b: map<Coord, int>, n: int, k: int, m: map<Coord, int>)
    requires RowInProgress(a, done, key, b, n, k, m) && 0 <= k < n
    ensures Lookup(m, (key.0, k)) + a[key] * Lookup(b, (key.1, k)) == RowProduct(a, done + {key}, b, key.0, k)
  {
    RowProductRemove(a, done + {key}, b, key.0, k, key);
    assert (done + {key}) - {key} == done;
    if (key.0, k) !in m {
      forall x | x in done
        ensures x.0 != key.0
      {
        assert x.0 in Rows(done);
      }
      RowProductOffRow(a, done, b, key.0, k);
    }
  }

  /** Once every column of key's row is done, the entries are the sparse product over `done` and `key`. */
  lemma FinishRow(a: map<Coord, int>, done: set<Coord>, key: Coord, b: map<Coord, int>, n: int, k: int, m: map<Coord, int>)
    requires RowInProgress(a, done, key, b, n, k, m) && k == Max(n, 0)
    ensures m == PartialProduct(a, done + {key}, b, n)
  {
    assert Rows(done + {key}) == Rows(done) + {key.0};
    forall c | c in m
      ensures m[c] == RowProduct(a, done + {key}, b, c.0, c.1)
    {
      if c.0 != key.0 {
        RowProductRemove(a, done + {key}, b, c.0, c.1, key);
        assert (done + {key}) - {key} == done;
      }
    }
    assert m.Keys == PartialProduct(a, done + {key}, b, n).Keys;
  }

  /** Reading the sparse product: position (r, k) with k below n holds the row sum, stored or not. */
  lemma ProductLookup(a: map<Coord, int>, b: map<Coord, int>, n: int, r: int, k: int)
    requires 0 <= k < n
    ensures Lookup(ProductEntries(a, b, n), (r, k)) == RowProduct(a, a.Keys, b, r, k)
    ensures (r, k) in ProductEntries(a, b, n) <==> exists key :: key in a && key.0 == r
  {
    if !exists key :: key in a && key.0 == r {
      RowProductOffRow(a, a.Keys, b, r, k);
    } else {
      var key :| key in a && key.0 == r;
      assert r in Rows(a.Keys);
    }
  }

  /** The product stores exactly the columns 0 .. n - 1 of every row that holds a key of the left operand. */
  lemma ProductKeySet(a: map<Coord, int>, b: map<Coord, int>, n: int)
    ensures forall c: Coord :: c in ProductEntries(a, b, n) <==> 0 <= c.1 < n && exists key :: key in a && key.0 == c.0
  {
    forall c: Coord | 0 <= c.1 < n && exists key :: key in a && key.0 == c.0
      ensures c in ProductEntries(a, b, n)
    {
      var key :| key in a && key.0 == c.0;
      assert c.0 in Rows(a.Keys);
    }
  }

  /** The ordinary row-by-column product, over columns 0 .. inner - 1 of the left operand. */
  function DenseRowProduct(a: map<Coord, int>, b: map<Coord, int>, row: int, col: int, inner: nat): int {
    if inner == 0 then 0
    else DenseRowProduct(a, b, row, col, inner - 1) + Lookup(a, (row, inner - 1)) * Lookup(b, (inner - 1, col))
  }

  function RowKeysBelow(a: map<Coord, int>, row: int, j: int): set<Coord> {
    set key | key in a && key.0 == row && 0 <= key.1 < j
  }

  lemma {:induction false} RowPrefixProduct(a: map<Coord, int>, b: map<Coord, int>, row: int, col: int, j: nat)
    ensures RowProduct(a, RowKeysBelow(a, row, j), b, row, col) == DenseRowProduct(a, b, row, col, j)
  {
    if j > 0 {
      RowPrefixProduct(a, b, row, col, j - 1);
      var below, upTo := RowKeysBelow(a, row, j - 1), RowKeysBelow(a, row, j);
      if (row, j - 1) in a {
        RowProductRemove(a, upTo, b, row, col, (row, j - 1));
        assert upTo - {(row, j - 1)} == below;
      } else {
        assert upTo == below;
      }
    }
  }

  /**
   * When every key of the left operand lies in columns 0 .. inner - 1, each
   * position of the sparse product holds the ordinary matrix product.
   */
  lemma ProductIsMatrixProduct(a: map<Coord, int>, b: map<Coord, int>, inner: nat, n: int, r: int, k: int)
    requires forall key :: key in a ==> 0 <= key.1 < inner
    requires 0 <= k < n
    ensures Lookup(ProductEntries(a, b, n), (r, k)) == DenseRowProduct(a, b, r, k, inner)
  {
    ProductLookup(a, b, n, r, k);
    var inRow := RowKeysBelow(a, r, inner);
    var rest := a.Keys - inRow;
    assert a.Keys == inRow + rest;
    RowProductUnion(a, inRow, rest, b, r, k);
    RowProductOffRow(a, rest, b, r, k);
    RowPrefixProduct(a, b, r, k, inner);
  }

  // ------------------------------------------------------------------ example

  /** A = diag(1, 2) and B = the 2 x 2 identity, stored by their non-zero entries. */
  function ExampleA(): map<Coord, int> {
    map[(0, 0) := 1, (1, 1) := 2]
  }

  function ExampleB(): map<Coord, int> {
    map[(0, 0) := 1, (1, 1) := 1]
  }

  /** A + B stores diag(2, 3). */
  lemma ExampleSum()
    ensures AddEntries(ExampleA(), ExampleB()) == map[(0, 0) := 2, (1, 1) := 3]
  {
    var r := AddEntries(ExampleA(), ExampleB());
    assert r.Keys == {(0, 0), (1, 1)};
    assert Lookup(r, (0, 0)) == 2 && Lookup(r, (1, 1)) == 3;
  }

  /** A - B keeps the key (0, 0) with the value 0: subtraction never drops a key. */
  lemma ExampleDifference()
    ensures SubtractEntries(ExampleA(), ExampleB()) == map[(0, 0) := 0, (1, 1) := 1]
  {
    var r := SubtractEntries(ExampleA(), ExampleB());
    assert r.Keys == {(0, 0), (1, 1)};
    assert Lookup(r, (0, 0)) == 0 && Lookup(r, (1, 1)) == 1;
  }

  lemma ExampleProductAt(r: int, k: int)
    requires 0 <= r < 2 && 0 <= k < 2
    ensures (r, k) in ProductEntries(ExampleA(), ExampleB(), 2)
    ensures ProductEntries(ExampleA(), ExampleB(), 2)[(r, k)] == DenseRowProduct(ExampleA(), ExampleB(), r, k, 2)
  {
    var a, b := ExampleA(), ExampleB();
    assert (r, r) in a;
    ProductLookup(a, b, 2, r, k);
    ProductIsMatrixProduct(a, b, 2, 2, r, k);
  }

  /** A * B stores every column of each row A uses, zeros included. */
  lemma ExampleProduct()
    ensures ProductEntries(ExampleA(), ExampleB(), 2) == map[(0, 0) := 1, (0, 1) := 0, (1, 0) := 0, (1, 1) := 2]
  {
    var a, b := ExampleA(), ExampleB();
    var p := ProductEntries(a, b, 2);
    ExampleProductAt(0, 0);
    assert DenseRowProduct(a, b, 0, 0, 2) == 1;
    ExampleProductAt(0, 1);
    assert DenseRowProduct(a, b, 0, 1, 2) == 0;
    ExampleProductAt(1, 0);
    assert DenseRowProduct(a, b, 1, 0, 2) == 0;
    ExampleProductAt(1, 1);
    assert DenseRowProduct(a, b, 1, 1, 2) == 2;
    assert Rows(a.Keys) == {0, 1};
    assert p.Keys == {(0, 0), (0, 1), (1, 0), (1, 1)};
  }
}
