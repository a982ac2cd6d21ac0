/**
  The Hill-cipher matrix algebra of src/utils/cipherUtils.ts:
  `multiplyMatrices`, `determinant`, `adjugate`, `invertMatrix` and
  `stringToMatrix`.  Matrices are sequences of rows of unbounded integers.
*/
module Matrices {
  import opened ModArith
  import opened Alphabet
  import opened Results

  type Matrix = seq<seq<int>>

  /** m has n rows of n entries each. */
  predicate IsSquare(m: Matrix, n: nat)
  {
    |m| == n && forall i :: 0 <= i < n ==> |m[i]| == n
  }

  /** The n x n identity, as `handleSizeChange` builds it. */
  function Identity(n: nat): (m: Matrix)
    ensures IsSquare(m, n)
  {
    seq(n, i => seq(n, j => if i == j then 1 else 0))
  }

  function Transpose(m: Matrix, n: nat): (t: Matrix)
    requires IsSquare(m, n)
    ensures IsSquare(t, n)
  {
    seq(n, i requires 0 <= i < n => seq(n, j requires 0 <= j < n => m[j][i]))
  }

  /** p is congruent to the identity modulo 26, entry by entry. */
  predicate IsIdentityMod26(p: Matrix, n: nat)
  {
    IsSquare(p, n) && forall i, j :: 0 <= i < n && 0 <= j < n ==> p[i][j] % 26 == (if i == j then 1 else 0)
  }

  // ---------------------------------------------------------------------------
  // multiplyMatrices (cipherUtils.ts:33-46)
  // ---------------------------------------------------------------------------

  /** The `sum` accumulator after n steps: row[0]*b[0][j] + ... + row[n-1]*b[n-1][j]. */
  function DotUpTo(row: seq<int>, b: Matrix, j: nat, n: nat): int
    requires n <= |row| && n <= |b|
    requires forall k :: 0 <= k < n ==> j < |b[k]|
  {
    if n == 0 then 0 else DotUpTo(row, b, j, n - 1) + row[n - 1] * b[n - 1][j]
  }

  /**
    What `multiplyMatrices` reads without hitting an undefined row or entry:
    b has a first row, as many rows as a's first row is long, and every row
    of a (resp. b) is at least as long as a's (resp. b's) first row.
  */
  predicate Conformable(a: Matrix, b: Matrix)
  {
    |a| > 0 ==>
      && |b| > 0 && |a[0]| <= |b|
      && (forall i :: 0 <= i < |a| ==> |a[0]| <= |a[i]|)
      && (forall k :: 0 <= k < |a[0]| ==> |b[0]| <= |b[k]|)
  }

  /** The product `multiplyMatrices(a, b)`: |a| rows of |b[0]| entries. */
  function MatMul(a: Matrix, b: Matrix): (r: Matrix)
    requires Conformable(a, b)
    ensures |r| == |a|
    ensures forall i :: 0 <= i < |r| ==> |r[i]| == |b[0]|
  {
    if |a| == 0 then []
    else
      seq(|a|, i requires 0 <= i < |a| =>
        seq(|b[0]|, j requires 0 <= j < |b[0]| => DotUpTo(a[i], b, j, |a[0]|)))
  }

  /** `multiplyMatrices`: three nested loops with a running sum. */
  method MultiplyMatrices(a: Matrix, b: Matrix) returns (result: Matrix)
    requires Conformable(a, b)
    ensures result == MatMul(a, b)
  {
    result := [];
    var i := 0;
    while i < |a|
      invariant 0 <= i <= |a|
      invariant result == MatMul(a, b)[..i]
    {
      var row := [];
      var j := 0;
      while j < |b[0]|
        invariant 0 <= j <= |b[0]|
        invariant row == MatMul(a, b)[i][..j]
      {
        var sum := 0;
        var k := 0;
        while k < |a[0]|
          invariant 0 <= k <= |a[0]|
          invariant sum == DotUpTo(a[i], b, j, k)
        {
          sum := sum + a[i][k] * b[k][j];
          k := k + 1;
        }
        row := row + [sum];
        j := j + 1;
      }
      assert row == MatMul(a, b)[i];
      result := result + [row];
      i := i + 1;
    }
  }

  lemma {:induction false} DotIdentityRow(n: nat, i: nat, b: Matrix, j: nat, k: nat)
    requires i < n && k <= n && n <= |b| && forall r :: 0 <= r < n ==> j < |b[r]|
    ensures DotUpTo(Identity(n)[i], b, j, k) == if i < k then b[i][j] else 0
  {
    if k > 0 {
      DotIdentityRow(n, i, b, j, k - 1);
    }
  }

  /** The identity is neutral on the left: I * b == b for every b with n rows of equal length. */
  lemma IdentityLeft(n: nat, b: Matrix)
    requires n >= 1 && |b| == n && forall r :: 0 <= r < n ==> |b[r]| == |b[0]|
    ensures Conformable(Identity(n), b) && MatMul(Identity(n), b) == b
  {
    var p := MatMul(Identity(n), b);
    forall i, j | 0 <= i < n && 0 <= j < |b[0]|
      ensures p[i][j] == b[i][j]
    {
      DotIdentityRow(n, i, b, j, n);
    }
    forall i | 0 <= i < n ensures p[i] == b[i] {
    }
  }

  // ---------------------------------------------------------------------------
  // determinant (cipherUtils.ts:48-67)
  // ---------------------------------------------------------------------------

  /** `Math.pow(-1, i)` for i >= 0. */
  function Sign(i: nat): int
  {
    if i % 2 == 0 then 1 else -1
  }

  /** The row without its entry c. */
  function RemoveAt(row: seq<int>, c: nat): (r: seq<int>)
    requires c < |row|
    ensures |r| == |row| - 1
    ensures forall l :: 0 <= l < |r| ==> r[l] == row[if l < c then l else l + 1]
  {
    row[..c] + row[c + 1..]
  }

  /** Row k of the minor comes from row k (above r) or k + 1 (below r) of m. */
  function MinorRow(m: Matrix, r: nat, c: nat, k: nat): (row: seq<int>)
    requires IsSquare(m, |m|) && r < |m| && c < |m| && k < |m| - 1
    ensures |row| == |m| - 1
  {
    var source := if k < r then k else k + 1;
    assert |m[source]| == |m|;
    RemoveAt(m[source], c)
  }

  /** m without row r and column c. */
  function Minor(m: Matrix, r: nat, c: nat): (s: Matrix)
    requires IsSquare(m, |m|) && r < |m| && c < |m|
    ensures IsSquare(s, |m| - 1)
  {
    seq(|m| - 1, k requires 0 <= k < |m| - 1 => MinorRow(m, r, c, k))
  }

  /** Entry (k, l) of the minor is entry (k or k + 1, l or l + 1) of m. */
  lemma MinorEntry(m: Matrix, r: nat, c: nat, k: nat, l: nat)
    requires IsSquare(m, |m|) && r < |m| && c < |m| && k < |m| - 1 && l < |m| - 1
    ensures Minor(m, r, c)[k][l] == m[if k < r then k else k + 1][if l < c then l else l + 1]
  {
  }

  /**
    `determinant`: ad - bc for 2 x 2, otherwise expansion along the first row
    with signs (-1)^i.  (A 1 x 1 matrix therefore gets 0, as in the source:
    its minor is empty and the empty sum is 0.)
  */
  function Det(m: Matrix): int
    requires IsSquare(m, |m|)
    decreases |m|, |m| + 1
  {
    if |m| == 2 then m[0][0] * m[1][1] - m[0][1] * m[1][0]
    else DetTerms(m, |m|)
  }

  /** The `det` accumulator after the first n terms of the expansion. */
  function DetTerms(m: Matrix, n: nat): int
    requires IsSquare(m, |m|) && n <= |m|
    decreases |m|, n
  {
    if n == 0 then 0
    else DetTerms(m, n - 1) + Sign(n - 1) * m[0][n - 1] * Det(Minor(m, 0, n - 1))
  }

  /** `determinant`: the recursive expansion, building each sub-matrix row by row. */
  method Determinant(matrix: Matrix) returns (det: int)
    requires IsSquare(matrix, |matrix|)
    ensures det == Det(matrix)
    decreases |matrix|
  {
    if |matrix| == 2 {
      return matrix[0][0] * matrix[1][1] - matrix[0][1] * matrix[1][0];
    }
    det := 0;
    var i := 0;
    while i < |matrix|
      invariant 0 <= i <= |matrix|
      invariant det == DetTerms(matrix, i)
    {
      var subMatrix: Matrix := [];
      var j := 1;
      while j < |matrix|
        invariant 1 <= j <= |matrix|
        invariant subMatrix == Minor(matrix, 0, i)[..j - 1]
      {
        var row := RemoveEntry(matrix[j], i);
        assert row == Minor(matrix, 0, i)[j - 1];
        subMatrix := subMatrix + [row];
        j := j + 1;
      }
      assert subMatrix == Minor(matrix, 0, i);
      var sub := Determinant(subMatrix);
      det := det + Sign(i) * matrix[0][i] * sub;
      i := i + 1;
    }
  }

  /** The 3 x 3 determinant in closed form (the rule of Sarrus, grouped by the first row). */
  lemma Det3(m: Matrix)
    requires IsSquare(m, 3)
    ensures Det(m) == m[0][0] * (m[1][1] * m[2][2] - m[1][2] * m[2][1])
                    - m[0][1] * (m[1][0] * m[2][2] - m[1][2] * m[2][0])
                    + m[0][2] * (m[1][0] * m[2][1] - m[1][1] * m[2][0])
  {
    forall c, k, l | 0 <= c < 3 && 0 <= k < 2 && 0 <= l < 2
      ensures Minor(m, 0, c)[k][l] == m[k + 1][if l < c then l else l + 1]
    {
      MinorEntry(m, 0, c, k, l);
    }
    var d0, d1, d2 := Det(Minor(m, 0, 0)), Det(Minor(m, 0, 1)), Det(Minor(m, 0, 2));
    assert d0 == m[1][1] * m[2][2] - m[1][2] * m[2][1];
    assert d1 == m[1][0] * m[2][2] - m[1][2] * m[2][0];
    assert d2 == m[1][0] * m[2][1] - m[1][1] * m[2][0];
    assert DetTerms(m, 1) == m[0][0] * d0;
    assert DetTerms(m, 2) == m[0][0] * d0 - m[0][1] * d1;
    assert DetTerms(m, 3) == m[0][0] * d0 - m[0][1] * d1 + m[0][2] * d2;
  }

  /** Removing the first row and column of the identity gives the smaller identity. */
  lemma MinorOfIdentity(n: nat)
    requires n >= 1
    ensures Minor(Identity(n), 0, 0) == Identity(n - 1)
  {
    var s := Minor(Identity(n), 0, 0);
    forall k | 0 <= k < n - 1 ensures s[k] == Identity(n - 1)[k] {
      forall l | 0 <= l < n - 1 ensures s[k][l] == Identity(n - 1)[k][l] {
        MinorEntry(Identity(n), 0, 0, k, l);
      }
    }
  }

  lemma {:induction false} DetTermsOfIdentity(n: nat, k: nat)
    requires 1 <= k <= n
    ensures DetTerms(Identity(n), k) == Det(Identity(n - 1))
  {
    if k > 1 {
      DetTermsOfIdentity(n, k - 1);
    } else {
      MinorOfIdentity(n);
    }
  }

  /** The identity of every size from 2 up has determinant 1. */
  lemma {:induction false} DetIdentity(n: nat)
    requires n >= 2
    ensures Det(Identity(n)) == 1
  {
    if n > 2 {
      DetTermsOfIdentity(n, n);
      DetIdentity(n - 1);
    }
  }

  // ---------------------------------------------------------------------------
  // adjugate (cipherUtils.ts:69-96)
  // ---------------------------------------------------------------------------

  /**
    `adjugate` as written: the true adjugate [[d, -b], [-c, a]] for 2 x 2, but
    the cofactor matrix (-1)^(i+j) * det(minor(i, j)) for every other size.
  */
  function Adj(m: Matrix): (r: Matrix)
    requires IsSquare(m, |m|)
    ensures IsSquare(r, |m|)
  {
    if |m| == 2 then [[m[1][1], -m[0][1]], [-m[1][0], m[0][0]]]
    else
      seq(|m|, i requires 0 <= i < |m| => seq(|m|, j requires 0 <= j < |m| => Cofactor(m, i, j)))
  }

  /** The signed minor (-1)^(i+j) * det(minor(i, j)). */
  function Cofactor(m: Matrix, i: nat, j: nat): int
    requires IsSquare(m, |m|) && i < |m| && j < |m|
  {
    Sign(i + j) * Det(Minor(m, i, j))
  }

  /** `adjugate`: for each cell, builds the minor row by row and calls `determinant`. */
  method Adjugate(matrix: Matrix) returns (adj: Matrix)
    requires IsSquare(matrix, |matrix|)
    ensures adj == Adj(matrix)
  {
    var n := |matrix|;
    if n == 2 {
      return [[matrix[1][1], -matrix[0][1]], [-matrix[1][0], matrix[0][0]]];
    }
    adj := [];
    var i := 0;
    while i < n
      invariant 0 <= i <= n
      invariant adj == Adj(matrix)[..i]
    {
      var adjRow := CofactorRow(matrix, i);
      assert adjRow == Adj(matrix)[i];
      adj := adj + [adjRow];
      i := i + 1;
    }
  }

  /** The inner loop of `adjugate`: the signed minors of row i. */
  method CofactorRow(matrix: Matrix, i: nat) returns (adjRow: seq<int>)
    requires IsSquare(matrix, |matrix|) && i < |matrix|
    ensures |adjRow| == |matrix|
    ensures forall j :: 0 <= j < |matrix| ==> adjRow[j] == Cofactor(matrix, i, j)
  {
    adjRow := [];
    var j := 0;
    while j < |matrix|
      invariant 0 <= j <= |matrix|
      invariant |adjRow| == j
      invariant forall l :: 0 <= l < j ==> adjRow[l] == Cofactor(matrix, i, l)
    {
      var sub := MinorOf(matrix, i, j);
      var d := Determinant(sub);
      adjRow := adjRow + [Sign(i + j) * d];
      j := j + 1;
    }
  }

  /** The `sub` loop of `adjugate`: the rows k != i, each without its entry j. */
  method MinorOf(matrix: Matrix, i: nat, j: nat) returns (sub: Matrix)
    requires IsSquare(matrix, |matrix|) && i < |matrix| && j < |matrix|
    ensures sub == Minor(matrix, i, j)
  {
    sub := [];
    var k := 0;
    while k < |matrix|
      invariant 0 <= k <= |matrix|
      invariant sub == Minor(matrix, i, j)[..if k <= i then k else k - 1]
    {
      if k != i {
        var row := RemoveEntry(matrix[k], j);
        assert row == Minor(matrix, i, j)[if k < i then k else k - 1];
        sub := sub + [row];
      }
      k := k + 1;
    }
  }

  /** The inner loop of the `sub` construction: the entries l != j of one row. */
  method RemoveEntry(source: seq<int>, j: nat) returns (row: seq<int>)
    requires j < |source|
    ensures row == RemoveAt(source, j)
  {
    row := [];
    var l := 0;
    while l < |source|
      invariant 0 <= l <= |source|
      invariant row == if l <= j then source[..l] else source[..j] + source[j + 1..l]
    {
      if l < j {
        assert source[..l + 1] == source[..l] + [source[l]];
        row := row + [source[l]];
      } else if l > j {
        assert source[j + 1..l + 1] == source[j + 1..l] + [source[l]];
        row := row + [source[l]];
      } else {
        assert source[j + 1..l + 1] == [];
      }
      l := l + 1;
    }
  }

  // ---------------------------------------------------------------------------
  // invertMatrix (cipherUtils.ts:98-115)
  // ---------------------------------------------------------------------------

  /** result[i][j] = mod(adj[j][i] * x, 26): the transposed adjugate, scaled and reduced. */
  function ScaledTranspose(adj: Matrix, x: int, n: nat): (r: Matrix)
    requires IsSquare(adj, n)
    ensures IsSquare(r, n)
    ensures forall i, j :: 0 <= i < n && 0 <= j < n ==> 0 <= r[i][j] < 26
  {
    seq(n, i requires 0 <= i < n => seq(n, j requires 0 <= j < n => Mod(adj[j][i] * x, 26)))
  }

  /**
    `invertMatrix`: det reduced mod 26, its `modInverse`, then the scaled
    transposed adjugate; `null` only when the inverse comes back as 0.
  */
  function Inverse(m: Matrix): (r: Option<Matrix>)
    requires IsSquare(m, |m|)
    ensures r.Some? ==> IsSquare(r.value, |m|)
  {
    var det := Mod(Det(m), 26);
    var invDet := ModInverseOf(det, 26);
    if invDet == 0 then None
    else Some(ScaledTranspose(Adj(m), invDet, |m|))
  }

  /** `invertMatrix`. */
  method InvertMatrix(matrix: Matrix) returns (result: Option<Matrix>)
    requires IsSquare(matrix, |matrix|)
    ensures result == Inverse(matrix)
  {
    var d := Determinant(matrix);
    var det := Mod(d, 26);
    var invDet := ModInverse(det, 26);
    if invDet == 0 {
      return None;
    }
    var adj := Adjugate(matrix);
    var rows := ScaleTransposed(adj, invDet, |matrix|);
    return Some(rows);
  }

  /** The final loops of `invertMatrix`: result[i][j] = mod(adj[j][i] * invDet, 26). */
  method ScaleTransposed(adj: Matrix, invDet: int, n: nat) returns (rows: Matrix)
    requires IsSquare(adj, n)
    ensures rows == ScaledTranspose(adj, invDet, n)
  {
    rows := [];
    var i := 0;
    while i < n
      invariant 0 <= i <= n
      invariant rows == ScaledTranspose(adj, invDet, n)[..i]
    {
      var row := [];
      var j := 0;
      while j < n
        invariant 0 <= j <= n
        invariant row == ScaledTranspose(adj, invDet, n)[i][..j]
      {
        row := row + [Mod(adj[j][i] * invDet, 26)];
        j := j + 1;
      }
      assert row == ScaledTranspose(adj, invDet, n)[i];
      rows := rows + [row];
      i := i + 1;
    }
  }

  /** `invertMatrix` never returns `null`: `modInverse` answers 1 when there is no inverse. */
  lemma InverseNeverNone(m: Matrix)
    requires IsSquare(m, |m|)
    ensures Inverse(m).Some?
  {
    ModInverseSpec(Mod(Det(m), 26), 26);
  }

  // ---------------------------------------------------------------------------
  // stringToMatrix (cipherUtils.ts:123-137)
  // ---------------------------------------------------------------------------

  /** `Math.ceil(len / size)`. */
  function CeilDiv(len: nat, size: nat): nat
    requires size >= 1
  {
    (len + size - 1) / size
  }

  /** ceil(len / size) rows of size letters hold the text, and the last row is not empty. */
  lemma CeilDivBounds(len: nat, size: nat)
    requires size >= 1
    ensures len <= CeilDiv(len, size) * size
    ensures CeilDiv(len, size) == 0 || (CeilDiv(len, size) - 1) * size < len
  {
    var q, r := (len + size - 1) / size, (len + size - 1) % size;
    assert len + size - 1 == q * size + r;
  }

  /** A length that is a multiple of size fills exactly len / size rows. */
  lemma CeilDivExact(len: nat, size: nat)
    requires size >= 1 && len % size == 0
    ensures CeilDiv(len, size) == len / size
  {
    ModUnique(len + size - 1, size, len / size, size - 1);
  }

  /** The letter 'X' as a number, used as padding. */
  const Padding := LetterToNumber('X')

  /**
    The matrix `stringToMatrix(text, size)` builds: ceil(len / size) rows of
    size entries, entry (i, j) the number of letter i * size + j of the text,
    or of 'X' past its end.
  */
  function TextMatrix(text: string, size: nat): (m: Matrix)
    requires size >= 1
    ensures |m| == CeilDiv(|text|, size)
    ensures forall i :: 0 <= i < |m| ==> |m[i]| == size
  {
    seq(CeilDiv(|text|, size), i requires 0 <= i < CeilDiv(|text|, size) =>
      seq(size, j requires 0 <= j < size =>
        if i * size + j < |text| then LetterToNumber(text[i * size + j]) else Padding))
  }

  /** Reading the matrix of a letter text row by row gives the text back, then 'X's. */
  lemma TextMatrixLetters(text: string, size: nat, i: nat, j: nat)
    requires size >= 1 && AllLetters(text) && i < CeilDiv(|text|, size) && j < size
    ensures 0 <= TextMatrix(text, size)[i][j] < 26
    ensures NumberToLetter(TextMatrix(text, size)[i][j]) == if i * size + j < |text| then text[i * size + j] else 'X'
  {
    if i * size + j < |text| {
      LetterRoundTrip(text[i * size + j]);
    } else {
      assert Padding == 23 && Mod(23, 26) == 23;
    }
  }

  /** `stringToMatrix`: one cursor walks the text while the rows are filled. */
  method StringToMatrix(text: string, size: nat) returns (matrix: Matrix)
    requires size >= 1
    ensures matrix == TextMatrix(text, size)
  {
    matrix := [];
    var index := 0;
    var rows := CeilDiv(|text|, size);
    var i := 0;
    while i < rows
      invariant 0 <= i <= rows
      invariant matrix == TextMatrix(text, size)[..i]
      invariant index == if i * size < |text| then i * size else |text|
    {
      var row := [];
      var j := 0;
      while j < size
        invariant 0 <= j <= size
        invariant row == TextMatrix(text, size)[i][..j]
        invariant index == if i * size + j < |text| then i * size + j else |text|
      {
        if index < |text| {
          row := row + [LetterToNumber(text[index])];
          index := index + 1;
        } else {
          row := row + [Padding];
        }
        j := j + 1;
      }
      assert row == TextMatrix(text, size)[i];
      assert (i + 1) * size == i * size + size;
      matrix := matrix + [row];
      i := i + 1;
    }
  }
}
