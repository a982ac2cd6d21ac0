/**
  Columnar transposition of src/utils/cipherUtils.ts (`transposeText`,
  `inverseTranspose`): the text is written row by row into a grid with a
  fixed number of columns (the last row may be short) and read column by
  column; the inverse rebuilds the grid column by column and reads it row
  by row.
*/
module Transposition {
  import opened ModArith
  import opened Results

  /** The column count after the guard `if (numColumns <= 0) numColumns = 1`. */
  function EffectiveColumns(numColumns: int): (k: nat)
    ensures k >= 1 && (numColumns >= 1 ==> k == numColumns)
  {
    if numColumns <= 0 then 1 else numColumns
  }

  /** `Math.ceil(length / numColumns)`. */
  function NumRows(len: nat, k: nat): nat
    requires k >= 1
  {
    (len + k - 1) / k
  }

  /** `colSizes[j]` as `inverseTranspose` computes it (cipherUtils.ts:229). */
  function ColSize(len: nat, k: nat, j: nat): int
    requires k >= 1
  {
    if j < len % k || len % k == 0 then NumRows(len, k) else NumRows(len, k) - 1
  }

  // ---------------------------------------------------------------------------
  // Arithmetic of the grid
  // ---------------------------------------------------------------------------

  lemma CellIndex(i: nat, k: nat, j: nat)
    requires 0 <= j < k
    ensures (i * k + j) % k == j && (i * k + j) / k == i
  {
    ModUnique(i * k + j, k, i, j);
  }

  lemma NumRowsValue(len: nat, k: nat)
    requires k >= 1
    ensures NumRows(len, k) == len / k + (if len % k == 0 then 0 else 1)
  {
    var q, r := len / k, len % k;
    if r == 0 {
      ModUnique(len + k - 1, k, q, k - 1);
    } else {
      ModUnique(len + k - 1, k, q + 1, r - 1);
    }
  }

  lemma MulMonotone(a: int, b: int, k: nat)
    requires a <= b
    ensures a * k <= b * k
  {
    assert b * k - a * k == (b - a) * k;
  }

  lemma ColSizeValue(len: nat, k: nat, j: nat)
    requires 0 <= j < k
    ensures ColSize(len, k, j) == len / k + (if j < len % k then 1 else 0)
  {
    NumRowsValue(len, k);
  }

  lemma RowInside(q: int, r: int, k: int, j: int, i: nat)
    requires 0 <= j < k && 0 <= r < k && q >= 0
    ensures i < q + (if j < r then 1 else 0) <==> i * k + j < q * k + r
  {
    if i <= q - 1 {
      MulMonotone(i, q - 1, k);
      assert (q - 1) * k == q * k - k;
    } else if i >= q + 1 {
      MulMonotone(q + 1, i, k);
      assert (q + 1) * k == q * k + k;
    }
  }

  /** Column j holds exactly the rows i with i*k + j inside the text. */
  lemma ColSizeSpec(len: nat, k: nat, j: nat, i: nat)
    requires 0 <= j < k
    ensures 0 <= ColSize(len, k, j) <= NumRows(len, k)
    ensures i < ColSize(len, k, j) <==> i * k + j < len
  {
    NumRowsValue(len, k);
    ColSizeValue(len, k, j);
    var q, r := len / k, len % k;
    assert len == q * k + r;
    RowInside(q, r, k, j, i);
  }

  /** The rows of the grid cover the whole text. */
  lemma GridCovers(len: nat, k: nat)
    requires k >= 1
    ensures NumRows(len, k) * k >= len
  {
    NumRowsValue(len, k);
    var q, r := len / k, len % k;
    assert len == q * k + r;
    if r != 0 {
      assert NumRows(len, k) * k == q * k + k;
    }
  }

  // ---------------------------------------------------------------------------
  // The permutation, as functions
  // ---------------------------------------------------------------------------

  /** Column j of the grid, top to bottom. */
  function Column<T>(t: seq<T>, k: nat, j: nat): (col: seq<T>)
    requires 0 <= j < k
    ensures |col| == ColSize(|t|, k, j)
  {
    ColSizeSpec(|t|, k, j, 0);
    seq(ColSize(|t|, k, j), i requires 0 <= i < ColSize(|t|, k, j) =>
      ColumnIndex(|t|, k, j, i); t[i * k + j])
  }

  /** Row i of column j lies inside the text. */
  lemma ColumnIndex(len: nat, k: nat, j: nat, i: nat)
    requires 0 <= j < k && i < ColSize(len, k, j)
    ensures 0 <= i * k + j < len
  {
    ColSizeSpec(len, k, j, i);
    assert i * k >= 0;
  }

  /** Row i of column j is the character at i*k + j. */
  lemma ColumnAt<T>(t: seq<T>, k: nat, j: nat, i: nat)
    requires 0 <= j < k && i < ColSize(|t|, k, j)
    ensures i * k + j < |t| && Column(t, k, j)[i] == t[i * k + j]
  {
    ColSizeSpec(|t|, k, j, i);
  }

  /** Columns 0..j-1 read one after the other. */
  function ColumnsUpTo<T>(t: seq<T>, k: nat, j: nat): seq<T>
    requires j <= k
  {
    if j == 0 then [] else ColumnsUpTo(t, k, j - 1) + Column(t, k, j - 1)
  }

  /** The result of `transposeText` (the read-by-columns order). */
  function Transposed<T>(t: seq<T>, numColumns: int): seq<T>
  {
    var k := EffectiveColumns(numColumns);
    ColumnsUpTo(t, k, k)
  }

  /** Where column j starts in the transposed text. */
  function Start(len: nat, k: nat, j: nat): int
    requires j <= k
  {
    if j == 0 then 0 else Start(len, k, j - 1) + ColSize(len, k, j - 1)
  }

  lemma {:induction false} StartFormula(len: nat, k: nat, j: nat, q: int, r: int)
    requires 1 <= k && j <= k && q == len / k && r == len % k
    ensures Start(len, k, j) == j * q + (if j < r then j else r)
  {
    if j > 0 {
      StartFormula(len, k, j - 1, q, r);
      ColSizeValue(len, k, j - 1);
      assert j * q == (j - 1) * q + q;
    }
  }

  lemma StartTotal(len: nat, k: nat)
    requires k >= 1
    ensures Start(len, k, k) == len
  {
    var q, r := len / k, len % k;
    StartFormula(len, k, k, q, r);
    assert len == k * q + r;
  }

  lemma {:induction false} StartNonNegative(len: nat, k: nat, j: nat)
    requires 1 <= k && j <= k
    ensures Start(len, k, j) >= 0
  {
    if j > 0 {
      StartNonNegative(len, k, j - 1);
      ColSizeSpec(len, k, j - 1, 0);
    }
  }

  lemma {:induction false} StartMonotone(len: nat, k: nat, i: nat, j: nat)
    requires 1 <= k && i <= j <= k
    ensures 0 <= Start(len, k, i) <= Start(len, k, j)
  {
    if i < j {
      StartMonotone(len, k, i, j - 1);
      ColSizeSpec(len, k, j - 1, 0);
    } else {
      StartNonNegative(len, k, i);
    }
  }

  lemma StartBounds(len: nat, k: nat, j: nat)
    requires j < k
    ensures 0 <= Start(len, k, j) && Start(len, k, j) + ColSize(len, k, j) <= len
  {
    StartMonotone(len, k, j + 1, k);
    StartMonotone(len, k, 0, j);
    StartTotal(len, k);
  }

  lemma {:induction false} ColumnsUpToLength<T>(t: seq<T>, k: nat, j: nat)
    requires j <= k
    ensures |ColumnsUpTo(t, k, j)| == Start(|t|, k, j)
  {
    if j > 0 {
      ColumnsUpToLength(t, k, j - 1);
    }
  }

  /** Row i of column c sits at Start(c) + i in the text read by columns. */
  lemma {:induction false} ColumnsUpToAt<T>(t: seq<T>, k: nat, j: nat, c: nat, i: nat)
    requires c < j <= k && i < ColSize(|t|, k, c)
    ensures 0 <= Start(|t|, k, c) + i < |ColumnsUpTo(t, k, j)|
    ensures ColumnsUpTo(t, k, j)[Start(|t|, k, c) + i] == Column(t, k, c)[i]
  {
    var before, last := ColumnsUpTo(t, k, j - 1), Column(t, k, j - 1);
    assert ColumnsUpTo(t, k, j) == before + last;
    ColumnsUpToLength(t, k, j - 1);
    StartNonNegative(|t|, k, c);
    if c == j - 1 {
      assert (before + last)[|before| + i] == last[i];
    } else {
      ColumnsUpToAt(t, k, j - 1, c, i);
      assert (before + last)[Start(|t|, k, c) + i] == before[Start(|t|, k, c) + i];
    }
  }

  /** The result of `inverseTranspose`: output position p comes from row p / k of column p % k. */
  function InverseTransposed<T>(c: seq<T>, numColumns: int): (r: seq<T>)
    ensures |r| == |c|
  {
    var k := EffectiveColumns(numColumns);
    seq(|c|, p requires 0 <= p < |c| => c[InverseSource(|c|, k, p)])
  }

  /** Place p of the inverse takes the letter at row p / k of column p % k. */
  function InverseSource(len: nat, k: nat, p: nat): (s: nat)
    requires k >= 1 && p < len
    ensures s < len
  {
    CellIndexBounds(len, k, p);
    Start(len, k, p % k) + p / k
  }

  /** Place p of the inverse holds the letter of column p % k, row p / k. */
  lemma InverseAt<T>(c: seq<T>, numColumns: int, p: nat)
    requires p < |c|
    ensures var k := EffectiveColumns(numColumns);
            0 <= Start(|c|, k, p % k) + p / k < |c| &&
            InverseTransposed(c, numColumns)[p] == c[Start(|c|, k, p % k) + p / k]
  {
    var k := EffectiveColumns(numColumns);
    CellIndexBounds(|c|, k, p);
    assert InverseTransposed(c, numColumns)[p] == c[InverseSource(|c|, k, p)];
  }

  lemma CellIndexBounds(len: nat, k: nat, p: nat)
    requires k >= 1 && p < len
    ensures p == (p / k) * k + p % k
    ensures 0 <= p / k < ColSize(len, k, p % k)
    ensures 0 <= Start(len, k, p % k) + p / k < len
  {
    ModUnique(p, k, p / k, p % k);
    ColSizeSpec(len, k, p % k, p / k);
    StartBounds(len, k, p % k);
  }

  // ---------------------------------------------------------------------------
  // The properties
  // ---------------------------------------------------------------------------

  /** `inverseTranspose` undoes `transposeText`, for every text and column count. */
  lemma InverseAfterTranspose<T>(t: seq<T>, numColumns: int)
    ensures InverseTransposed(Transposed(t, numColumns), numColumns) == t
  {
    var k := EffectiveColumns(numColumns);
    var c := Transposed(t, numColumns);
    var u := InverseTransposed(c, numColumns);
    ColumnsUpToLength(t, k, k);
    StartTotal(|t|, k);
    forall p | 0 <= p < |t|
      ensures u[p] == t[0 + p]
    {
      InverseAfterTransposeAt(t, numColumns, c, p);
    }
    SliceOf(t, u, 0, |t|);
    assert t[0..|t|] == t;
  }

  /** Place p of the round trip gets back letter p. */
  lemma InverseAfterTransposeAt<T>(t: seq<T>, numColumns: int, c: seq<T>, p: nat)
    requires c == Transposed(t, numColumns) && p < |t|
    ensures |InverseTransposed(c, numColumns)| == |t| && InverseTransposed(c, numColumns)[p] == t[p]
  {
    var k := EffectiveColumns(numColumns);
    ColumnsUpToLength(t, k, k);
    StartTotal(|t|, k);
    InverseAt(c, numColumns, p);
    CellIndexBounds(|t|, k, p);
    ColumnsUpToAt(t, k, k, p % k, p / k);
    ColumnAt(t, k, p % k, p / k);
  }

  lemma {:induction false} TransposeOfInversePrefix<T>(c: seq<T>, numColumns: int, j: nat)
    requires j <= EffectiveColumns(numColumns)
    ensures var k := EffectiveColumns(numColumns);
      0 <= Start(|c|, k, j) <= |c| &&
      ColumnsUpTo(InverseTransposed(c, numColumns), k, j) == c[..Start(|c|, k, j)]
  {
    var k := EffectiveColumns(numColumns);
    if j > 0 {
      TransposeOfInversePrefix(c, numColumns, j - 1);
      var u := InverseTransposed(c, numColumns);
      var a, b := Start(|c|, k, j - 1), Start(|c|, k, j);
      ColumnOfInverse(c, numColumns, j - 1);
      assert ColumnsUpTo(u, k, j) == ColumnsUpTo(u, k, j - 1) + Column(u, k, j - 1);
      assert c[..b] == c[..a] + c[a..b];
    }
  }

  /** Column j of the inverse is the slice of c that `inverseTranspose` poured into it. */
  lemma ColumnOfInverse<T>(c: seq<T>, numColumns: int, j: nat)
    requires j < EffectiveColumns(numColumns)
    ensures var k := EffectiveColumns(numColumns);
      0 <= Start(|c|, k, j) <= Start(|c|, k, j + 1) <= |c| &&
      Column(InverseTransposed(c, numColumns), k, j) == c[Start(|c|, k, j)..Start(|c|, k, j + 1)]
  {
    var k := EffectiveColumns(numColumns);
    StartBounds(|c|, k, j);
    var u := InverseTransposed(c, numColumns);
    var col := Column(u, k, j);
    var a, b := Start(|c|, k, j), Start(|c|, k, j + 1);
    assert b == a + ColSize(|c|, k, j);
    forall i | 0 <= i < |col|
      ensures col[i] == c[a + i]
    {
      ColumnAt(u, k, j, i);
      CellIndex(i, k, j);
      InverseAt(c, numColumns, i * k + j);
    }
    SliceOf(c, col, a, b);
  }

  /** A sequence that matches c from index a on, for b - a places, is the slice c[a..b]. */
  lemma SliceOf<T>(c: seq<T>, s: seq<T>, a: nat, b: nat)
    requires a <= b <= |c| && |s| == b - a
    requires forall i :: 0 <= i < |s| ==> s[i] == c[a + i]
    ensures s == c[a..b]
  {
  }

  /** And `transposeText` undoes `inverseTranspose`: the two are mutually inverse permutations. */
  lemma TransposeAfterInverse<T>(c: seq<T>, numColumns: int)
    ensures Transposed(InverseTransposed(c, numColumns), numColumns) == c
  {
    var k := EffectiveColumns(numColumns);
    TransposeOfInversePrefix(c, numColumns, k);
    StartTotal(|c|, k);
  }

  /** Column j of t + [x] has x appended exactly when x lands in column j, i.e. j == |t| % k. */
  lemma ColumnSnocSize(len: nat, k: nat, j: nat)
    requires 0 <= j < k
    ensures ColSize(len + 1, k, j) == ColSize(len, k, j) + (if j == len % k then 1 else 0)
    ensures j == len % k ==> ColSize(len, k, j) * k + j == len
  {
    ColSizeValue(len, k, j);
    ColSizeValue(len + 1, k, j);
    SuccDivMod(len, k);
  }

  /** Quotient and remainder of len + 1 from those of len. */
  lemma SuccDivMod(len: nat, k: nat)
    requires k >= 1
    ensures len == (len / k) * k + len % k
    ensures len % k + 1 < k ==> (len + 1) / k == len / k && (len + 1) % k == len % k + 1
    ensures len % k + 1 == k ==> (len + 1) / k == len / k + 1 && (len + 1) % k == 0
  {
    var q, r := len / k, len % k;
    ModUnique(len, k, q, r);
    if r + 1 < k {
      ModUnique(len + 1, k, q, r + 1);
    } else {
      assert len + 1 == k * (q + 1) + 0;
      ModUnique(len + 1, k, q + 1, 0);
    }
  }

  /** Appending x to the text appends it to column |t| % k and leaves the other columns alone. */
  lemma ColumnSnoc<T>(t: seq<T>, x: T, k: nat, j: nat)
    requires 0 <= j < k
    ensures Column(t + [x], k, j) == Column(t, k, j) + (if j == |t| % k then [x] else [])
  {
    var a, b := Column(t + [x], k, j), Column(t, k, j);
    ColumnSnocSize(|t|, k, j);
    forall i | 0 <= i < |a|
      ensures a[i] == (b + (if j == |t| % k then [x] else []))[i]
    {
      ColumnAt(t + [x], k, j, i);
      if i < |b| {
        ColumnAt(t, k, j, i);
      }
    }
  }

  /** The characters of columns 0..j-1, column by column. */
  ghost function ColumnsBag<T>(t: seq<T>, k: nat, j: nat): multiset<T>
    requires j <= k
  {
    if j == 0 then multiset{} else ColumnsBag(t, k, j - 1) + multiset(Column(t, k, j - 1))
  }

  /** The bag of the first j columns is the multiset of their read-out. */
  lemma {:induction false} ColumnsBagOfRead<T>(t: seq<T>, k: nat, j: nat)
    requires j <= k
    ensures ColumnsBag(t, k, j) == multiset(ColumnsUpTo(t, k, j))
  {
    if j > 0 {
      ColumnsBagOfRead(t, k, j - 1);
      assert ColumnsUpTo(t, k, j) == ColumnsUpTo(t, k, j - 1) + Column(t, k, j - 1);
    }
  }

  /** The multiset form of `ColumnSnoc`. */
  lemma ColumnSnocMultiset<T>(t: seq<T>, x: T, k: nat, j: nat)
    requires 0 <= j < k
    ensures j == |t| % k ==> multiset(Column(t + [x], k, j)) == multiset(Column(t, k, j)) + multiset{x}
    ensures j != |t| % k ==> multiset(Column(t + [x], k, j)) == multiset(Column(t, k, j))
  {
    ColumnSnoc(t, x, k, j);
    if j != |t| % k {
      assert Column(t + [x], k, j) == Column(t, k, j) + [];
    }
  }

  /** Over the first j columns, appending x adds x once if its column |t| % k = m is among them. */
  lemma {:induction false} ColumnsSnocMultiset<T>(t: seq<T>, x: T, k: nat, j: nat, m: nat)
    requires 1 <= k && j <= k && m == |t| % k
    ensures m < j ==> ColumnsBag(t + [x], k, j) == ColumnsBag(t, k, j) + multiset{x}
    ensures j <= m ==> ColumnsBag(t + [x], k, j) == ColumnsBag(t, k, j)
  {
    if j > 0 {
      ColumnsSnocMultiset(t, x, k, j - 1, m);
      ColumnSnocMultiset(t, x, k, j - 1);
      var before, before' := ColumnsBag(t + [x], k, j - 1), ColumnsBag(t, k, j - 1);
      var col, col' := multiset(Column(t + [x], k, j - 1)), multiset(Column(t, k, j - 1));
      assert ColumnsBag(t + [x], k, j) == before + col;
      assert ColumnsBag(t, k, j) == before' + col';
      if j - 1 == m {
        UnionRegroup(before', col', multiset{x});
      } else if m < j - 1 {
        UnionRegroup(before', multiset{x}, col');
      }
    }
  }

  /** Multiset union may be regrouped and reordered. */
  lemma UnionRegroup<T>(a: multiset<T>, b: multiset<T>, c: multiset<T>)
    ensures a + (b + c) == (a + b) + c && (a + b) + c == (a + c) + b
  {
  }

  /** `transposeText` only reorders: the result holds the same characters, as often. */
  lemma {:induction false} TransposePermutes<T>(t: seq<T>, numColumns: int)
    ensures multiset(Transposed(t, numColumns)) == multiset(t)
  {
    var k := EffectiveColumns(numColumns);
    ColumnsBagOfRead(t, k, k);
    BagPermutes(t, k);
  }

  /** All k columns together hold each character of t as often as t does. */
  lemma {:induction false} BagPermutes<T>(t: seq<T>, k: nat)
    requires k >= 1
    ensures ColumnsBag(t, k, k) == multiset(t)
    decreases |t|
  {
    if t == [] {
      ColumnsBagOfRead(t, k, k);
      ColumnsUpToLength(t, k, k);
      StartTotal(0, k);
    } else {
      var init, x := t[..|t| - 1], t[|t| - 1];
      assert t == init + [x];
      BagPermutes(init, k);
      ColumnsSnocMultiset(init, x, k, k, |init| % k);
    }
  }

  /** `inverseTranspose` only reorders as well. */
  lemma InversePermutes<T>(c: seq<T>, numColumns: int)
    ensures multiset(InverseTransposed(c, numColumns)) == multiset(c)
  {
    TransposeAfterInverse(c, numColumns);
    TransposePermutes(InverseTransposed(c, numColumns), numColumns);
  }

  // ---------------------------------------------------------------------------
  // The two procedures, over their grids
  // ---------------------------------------------------------------------------

  /** The grid cell (i, j) of `transposeText`: a character, or '' past the end of the text. */
  function Cell(text: string, k: nat, i: nat, j: nat): Option<char>
  {
    if i * k + j < |text| then Some(text[i * k + j]) else None
  }

  /** `transposeText` (cipherUtils.ts:192-217). */
  method TransposeText(text: string, numColumns: int) returns (result: string)
    ensures result == Transposed(text, numColumns)
  {
    var k := EffectiveColumns(numColumns);
    var numRows := NumRows(|text|, k);
    var grid := new Option<char>[numRows, k];
    // Create grid and fill with characters
    var i := 0;
    while i < numRows
      invariant 0 <= i <= numRows
      invariant forall r, c :: 0 <= r < i && 0 <= c < k ==> grid[r, c] == Cell(text, k, r, c)
    {
      var j := 0;
      while j < k
        invariant 0 <= j <= k
        invariant forall r, c :: 0 <= r < i && 0 <= c < k ==> grid[r, c] == Cell(text, k, r, c)
        invariant forall c :: 0 <= c < j ==> grid[i, c] == Cell(text, k, i, c)
      {
        var index := i * k + j;
        grid[i, j] := if index < |text| then Some(text[index]) else None;
        j := j + 1;
      }
      i := i + 1;
    }
    // Read by columns
    result := ReadByColumns(grid, text, k, numRows);
  }

  /** The column-reading loop of `transposeText`. */
  method ReadByColumns(grid: array2<Option<char>>, text: string, k: nat, numRows: nat) returns (result: string)
    requires k >= 1 && numRows == NumRows(|text|, k)
    requires grid.Length0 == numRows && grid.Length1 == k
    requires forall r, c :: 0 <= r < numRows && 0 <= c < k ==> grid[r, c] == Cell(text, k, r, c)
    ensures result == ColumnsUpTo(text, k, k)
  {
    result := [];
    var j := 0;
    while j < k
      invariant 0 <= j <= k
      invariant result == ColumnsUpTo(text, k, j)
    {
      ghost var col := Column(text, k, j);
      ColSizeSpec(|text|, k, j, 0);
      var i := 0;
      while i < numRows
        invariant 0 <= i <= numRows
        invariant result == ColumnsUpTo(text, k, j) + col[..if i < |col| then i else |col|]
        {
        ColSizeSpec(|text|, k, j, i);
        if i < |col| {
          ColumnAt(text, k, j, i);
          assert grid[i, j] == Some(col[i]);
          assert col[..i + 1] == col[..i] + [col[i]];
        } else {
          assert grid[i, j] == None;
        }
        if grid[i, j].Some? {
          result := result + [grid[i, j].value];
        }
        i := i + 1;
      }
      assert col[..|col|] == col;
      j := j + 1;
    }
  }

  /** The grid cell (i, j) of `inverseTranspose` once column j has been filled. */
  function Filled(text: string, k: nat, i: nat, j: nat): Option<char>
    requires j < k
  {
    if i < ColSize(|text|, k, j) then
      StartBounds(|text|, k, j);
      Some(text[Start(|text|, k, j) + i])
    else None
  }

  /** Reading the filled cell (i, j), at place i * k + j, extends the inverse's prefix by one. */
  lemma ReadCell(text: string, numColumns: int, i: nat, j: nat)
    requires var k := EffectiveColumns(numColumns); j < k && i * k + j < |text|
    ensures var k := EffectiveColumns(numColumns); var u := InverseTransposed(text, numColumns);
            var p := i * k + j;
            0 <= p && Filled(text, k, i, j).Some? &&
            u[..p + 1] == u[..p] + [Filled(text, k, i, j).value]
  {
    var k := EffectiveColumns(numColumns);
    var p := i * k + j;
    CellIndex(i, k, j);
    InverseAt(text, numColumns, p);
    CellIndexBounds(|text|, k, p);
  }

  /** `inverseTranspose` (cipherUtils.ts:220-257). */
  method InverseTranspose(text: string, numColumns: int) returns (result: string)
    ensures result == InverseTransposed(text, numColumns)
  {
    var k := EffectiveColumns(numColumns);
    var len := |text|;
    var numRows := NumRows(len, k);
    // Calculate the size of each column
    var colSizes := new int[k];
    var j := 0;
    while j < k
      invariant 0 <= j <= k
      invariant forall c :: 0 <= c < j ==> colSizes[c] == ColSize(len, k, c)
    {
      JsRemNonNegative(len, k);
      colSizes[j] := if j < JsRem(len, k) || JsRem(len, k) == 0 then numRows else numRows - 1;
      j := j + 1;
    }
    // Create grid
    var grid := new Option<char>[numRows, k]((_, _) => None);
    // Fill grid by columns
    var index := 0;
    j := 0;
    while j < k
      invariant 0 <= j <= k
      invariant index == Start(len, k, j)
      invariant forall c :: 0 <= c < k ==> colSizes[c] == ColSize(len, k, c)
      invariant forall r, c :: 0 <= r < numRows && 0 <= c < k ==>
        grid[r, c] == if c < j then Filled(text, k, r, c) else None
    {
      StartBounds(len, k, j);
      ColSizeSpec(len, k, j, 0);
      var i := 0;
      while i < colSizes[j]
        invariant 0 <= i <= colSizes[j]
        invariant index == Start(len, k, j) + i
        invariant forall c :: 0 <= c < k ==> colSizes[c] == ColSize(len, k, c)
        invariant forall r, c :: 0 <= r < numRows && 0 <= c < k ==>
          grid[r, c] == if c < j || (c == j && r < i) then Filled(text, k, r, c) else None
      {
        if index < len {
          grid[i, j] := Some(text[index]);
          index := index + 1;
        }
        i := i + 1;
      }
      j := j + 1;
    }
    // Read by rows
    result := ReadByRows(grid, text, numColumns, k, numRows);
  }

  /** The row-reading loop of `inverseTranspose`. */
  method ReadByRows(grid: array2<Option<char>>, text: string, numColumns: int, k: nat, numRows: nat)
    returns (result: string)
    requires k == EffectiveColumns(numColumns) && numRows == NumRows(|text|, k)
    requires grid.Length0 == numRows && grid.Length1 == k
    requires forall r, c :: 0 <= r < numRows && 0 <= c < k ==> grid[r, c] == Filled(text, k, r, c)
    ensures result == InverseTransposed(text, numColumns)
  {
    var len := |text|;
    GridCovers(len, k);
    result := [];
    var i := 0;
    while i < numRows
      invariant 0 <= i <= numRows
      invariant result == InverseTransposed(text, numColumns)[..if i * k < len then i * k else len]
    {
      var j := 0;
      while j < k
        invariant 0 <= j <= k
        invariant result == InverseTransposed(text, numColumns)[..if i * k + j < len then i * k + j else len]
      {
        ColSizeSpec(len, k, j, i);
        if grid[i, j].Some? {
          ReadCell(text, numColumns, i, j);
          result := result + [grid[i, j].value];
        }
        j := j + 1;
      }
      assert (i + 1) * k == i * k + k;
      i := i + 1;
    }
    MulMonotone(numRows, numRows, k);
  }

}
