/**
  Algebra of the matrix helpers of src/utils/cipherUtils.ts: linearity and
  associativity of `multiplyMatrices`, products taken modulo 26, and the
  cofactor identities behind `invertMatrix`.
*/
module MatrixAlgebra {
  import opened ModArith
  import opened Results
  import opened Matrices

  // ---------------------------------------------------------------------------
  // Sums of products
  // ---------------------------------------------------------------------------

  /** A row that is u + c * v entry by entry gives the sum of products u + c * v. */
  lemma {:induction false} DotLinear(u: seq<int>, v: seq<int>, w: seq<int>, c: int, b: Matrix, j: nat, n: nat)
    requires n <= |u| && n <= |v| && n <= |w| && n <= |b|
    requires forall k :: 0 <= k < n ==> j < |b[k]|
    requires forall l :: 0 <= l < n ==> w[l] == u[l] + c * v[l]
    ensures DotUpTo(w, b, j, n) == DotUpTo(u, b, j, n) + c * DotUpTo(v, b, j, n)
  {
    if n > 0 {
      DotLinear(u, v, w, c, b, j, n - 1);
      var y := b[n - 1][j];
      assert w[n - 1] * y == u[n - 1] * y + c * (v[n - 1] * y);
      assert c * DotUpTo(v, b, j, n) == c * DotUpTo(v, b, j, n - 1) + c * (v[n - 1] * y);
    }
  }

  /** The first m terms of each entry of row a times b. */
  function PartialRow(a: seq<int>, b: Matrix, m: nat, n: nat): (r: seq<int>)
    requires m <= |a| && IsSquare(b, n) && m <= n
    ensures |r| == n
  {
    seq(n, l requires 0 <= l < n => DotUpTo(a, b, l, m))
  }

  /** Regrouping a double sum: sum_k a[k] * (b[k] . c) = sum_l (sum_k a[k] * b[k][l]) * c[l]. */
  lemma {:induction false} DotRegroup(a: seq<int>, b: Matrix, c: Matrix, j: nat, m: nat, n: nat)
    requires n >= 1 && m <= n && n <= |a| && IsSquare(b, n)
    requires |c| == n && forall l :: 0 <= l < n ==> j < |c[l]| && |c[l]| == |c[0]|
    ensures Conformable(b, c)
    ensures DotUpTo(a, MatMul(b, c), j, m) == DotUpTo(PartialRow(a, b, m, n), c, j, n)
  {
    var bc := MatMul(b, c);
    if m == 0 {
      ZeroRow(PartialRow(a, b, 0, n), c, j, n);
    } else {
      DotRegroup(a, b, c, j, m - 1, n);
      var u, w := PartialRow(a, b, m - 1, n), PartialRow(a, b, m, n);
      DotLinear(u, b[m - 1], w, a[m - 1], c, j, n);
      assert bc[m - 1][j] == DotUpTo(b[m - 1], c, j, n);
    }
  }

  lemma {:induction false} ZeroRow(u: seq<int>, c: Matrix, j: nat, n: nat)
    requires n <= |u| && n <= |c| && forall k :: 0 <= k < n ==> j < |c[k]|
    requires forall l :: 0 <= l < n ==> u[l] == 0
    ensures DotUpTo(u, c, j, n) == 0
  {
    if n > 0 {
      ZeroRow(u, c, j, n - 1);
    }
  }

  /** `multiplyMatrices` is associative: a * (b * c) == (a * b) * c, entry by entry. */
  lemma MatMulAssoc(a: Matrix, b: Matrix, c: Matrix, n: nat, i: nat, j: nat)
    requires n >= 1 && IsSquare(a, n) && IsSquare(b, n)
    requires |c| == n && forall l :: 0 <= l < n ==> |c[l]| == |c[0]|
    requires i < n && j < |c[0]|
    ensures Conformable(b, c) && Conformable(a, MatMul(b, c))
    ensures Conformable(a, b) && Conformable(MatMul(a, b), c)
    ensures MatMul(a, MatMul(b, c))[i][j] == MatMul(MatMul(a, b), c)[i][j]
  {
    DotRegroup(a[i], b, c, j, n, n);
    var ab := MatMul(a, b);
    assert ab[i] == PartialRow(a[i], b, n, n);
  }

  // ---------------------------------------------------------------------------
  // Sums of products modulo 26
  // ---------------------------------------------------------------------------

  /** A row congruent to x * r gives a sum of products congruent to x times r's. */
  lemma {:induction false} DotCongruentLeft(r: seq<int>, s: seq<int>, b: Matrix, j: nat, n: nat, x: int)
    requires n <= |r| && n <= |s| && n <= |b| && forall k :: 0 <= k < n ==> j < |b[k]|
    requires forall t :: 0 <= t < n ==> s[t] % 26 == (x * r[t]) % 26
    ensures DotUpTo(s, b, j, n) % 26 == (x * DotUpTo(r, b, j, n)) % 26
  {
    if n > 0 {
      DotCongruentLeft(r, s, b, j, n - 1, x);
      var y := b[n - 1][j];
      MulResidue(s[n - 1], y, 26);
      MulResidue(x * r[n - 1], y, 26);
      assert x * DotUpTo(r, b, j, n) == x * DotUpTo(r, b, j, n - 1) + (x * r[n - 1]) * y;
      ModAddCongruent(DotUpTo(s, b, j, n - 1), x * DotUpTo(r, b, j, n - 1), s[n - 1] * y, (x * r[n - 1]) * y, 26);
    }
  }

  /** A column congruent to x * b's column gives a sum of products congruent to x times b's. */
  lemma {:induction false} DotCongruentRight(r: seq<int>, b: Matrix, c: Matrix, j: nat, n: nat, x: int)
    requires n <= |r| && n <= |b| && n <= |c|
    requires forall k :: 0 <= k < n ==> j < |b[k]| && j < |c[k]|
    requires forall t :: 0 <= t < n ==> c[t][j] % 26 == (x * b[t][j]) % 26
    ensures DotUpTo(r, c, j, n) % 26 == (x * DotUpTo(r, b, j, n)) % 26
  {
    if n > 0 {
      DotCongruentRight(r, b, c, j, n - 1, x);
      var y := r[n - 1];
      MulResidue(c[n - 1][j], y, 26);
      MulResidue(x * b[n - 1][j], y, 26);
      assert y * c[n - 1][j] == c[n - 1][j] * y;
      assert x * DotUpTo(r, b, j, n) == x * DotUpTo(r, b, j, n - 1) + (x * b[n - 1][j]) * y;
      ModAddCongruent(DotUpTo(r, c, j, n - 1), x * DotUpTo(r, b, j, n - 1), y * c[n - 1][j], (x * b[n - 1][j]) * y, 26);
    }
  }

  /** A row congruent to row i of the identity picks out entry i of each column, modulo 26. */
  lemma IdentityRowPicks(s: seq<int>, b: Matrix, i: nat, j: nat, n: nat)
    requires i < n && n <= |s| && n <= |b| && forall k :: 0 <= k < n ==> j < |b[k]|
    requires forall t :: 0 <= t < n ==> s[t] % 26 == (if t == i then 1 else 0)
    ensures DotUpTo(s, b, j, n) % 26 == b[i][j] % 26
  {
    var e := Identity(n)[i];
    DotCongruentLeft(e, s, b, j, n, 1);
    DotIdentityRow(n, i, b, j, n);
  }

  // ---------------------------------------------------------------------------
  // Cofactors and the adjugate
  // ---------------------------------------------------------------------------

  /** A 2 x 2 minor of a 3 x 3 matrix, in closed form. */
  lemma Minor3(m: Matrix, r: nat, c: nat)
    requires IsSquare(m, 3) && r < 3 && c < 3
    ensures var r1, r2 := if r == 0 then 1 else 0, if r == 2 then 1 else 2;
            var c1, c2 := if c == 0 then 1 else 0, if c == 2 then 1 else 2;
            Det(Minor(m, r, c)) == m[r1][c1] * m[r2][c2] - m[r1][c2] * m[r2][c1]
  {
    MinorEntry(m, r, c, 0, 0);
    MinorEntry(m, r, c, 0, 1);
    MinorEntry(m, r, c, 1, 0);
    MinorEntry(m, r, c, 1, 1);
  }

  /**
    The adjugate `adjugate` evidently intends for every size: the cofactor
    matrix, whose transpose `invertMatrix` then takes; for 2 x 2 that is
    [[d, -c], [-b, a]].
  */
  function CofactorMatrix(m: Matrix): (r: Matrix)
    requires IsSquare(m, |m|)
    ensures IsSquare(r, |m|)
  {
    if |m| == 2 then [[m[1][1], -m[1][0]], [-m[0][1], m[0][0]]]
    else Adj(m)
  }

  /** The nine cofactors of a 3 x 3 matrix. */
  lemma Cofactors3(m: Matrix)
    requires IsSquare(m, 3)
    ensures var c := CofactorMatrix(m);
            && c[0][0] == m[1][1] * m[2][2] - m[1][2] * m[2][1]
            && c[0][1] == -(m[1][0] * m[2][2] - m[1][2] * m[2][0])
            && c[0][2] == m[1][0] * m[2][1] - m[1][1] * m[2][0]
            && c[1][0] == -(m[0][1] * m[2][2] - m[0][2] * m[2][1])
            && c[1][1] == m[0][0] * m[2][2] - m[0][2] * m[2][0]
            && c[1][2] == -(m[0][0] * m[2][1] - m[0][1] * m[2][0])
            && c[2][0] == m[0][1] * m[1][2] - m[0][2] * m[1][1]
            && c[2][1] == -(m[0][0] * m[1][2] - m[0][2] * m[1][0])
            && c[2][2] == m[0][0] * m[1][1] - m[0][1] * m[1][0]
  {
    forall r, s | 0 <= r < 3 && 0 <= s < 3 ensures CofactorMatrix(m)[r][s] == Cofactor(m, r, s) {
      Minor3(m, r, s);
    }
  }

  /** Away from 2 x 2, `adjugate` as written already is the cofactor matrix. */
  lemma AdjIsCofactorMatrix(m: Matrix)
    requires IsSquare(m, |m|) && |m| != 2
    ensures Adj(m) == CofactorMatrix(m)
  {
  }

  /** For 2 x 2, `adjugate` as written is the transpose of the cofactor matrix. */
  lemma Adj2Transposed(m: Matrix)
    requires IsSquare(m, 2)
    ensures Adj(m) == Transpose(CofactorMatrix(m), 2)
  {
    var t := Transpose(CofactorMatrix(m), 2);
    assert Adj(m)[0] == t[0] && Adj(m)[1] == t[1];
  }

  /** The 3 x 3 column cofactor identities, over the nine entries and the nine cofactors. */
  lemma ColumnIdentities3(a: int, b: int, c: int, d: int, e: int, f: int, g: int, h: int, k: int,
                          c00: int, c01: int, c02: int, c10: int, c11: int, c12: int, c20: int, c21: int, c22: int, det: int)
    requires det == a * (e * k - f * h) - b * (d * k - f * g) + c * (d * h - e * g)
    requires c00 == e * k - f * h && c01 == -(d * k - f * g) && c02 == d * h - e * g
    requires c10 == -(b * k - c * h) && c11 == a * k - c * g && c12 == -(a * h - b * g)
    requires c20 == b * f - c * e && c21 == -(a * f - c * d) && c22 == a * e - b * d
    ensures c00 * a + c10 * d + c20 * g == det
    ensures c00 * b + c10 * e + c20 * h == 0
    ensures c00 * c + c10 * f + c20 * k == 0
    ensures c01 * a + c11 * d + c21 * g == 0
    ensures c01 * b + c11 * e + c21 * h == det
    ensures c01 * c + c11 * f + c21 * k == 0
    ensures c02 * a + c12 * d + c22 * g == 0
    ensures c02 * b + c12 * e + c22 * h == 0
    ensures c02 * c + c12 * f + c22 * k == det
  {
    assert c00 * a == (e * k - f * h) * a;
    assert c00 * b == (e * k - f * h) * b;
    assert c00 * c == (e * k - f * h) * c;
    assert c01 * a == (-(d * k - f * g)) * a;
    assert c01 * b == (-(d * k - f * g)) * b;
    assert c01 * c == (-(d * k - f * g)) * c;
    assert c02 * a == (d * h - e * g) * a;
    assert c02 * b == (d * h - e * g) * b;
    assert c02 * c == (d * h - e * g) * c;
    assert c10 * d == (-(b * k - c * h)) * d;
    assert c10 * e == (-(b * k - c * h)) * e;
    assert c10 * f == (-(b * k - c * h)) * f;
    assert c11 * d == (a * k - c * g) * d;
    assert c11 * e == (a * k - c * g) * e;
    assert c11 * f == (a * k - c * g) * f;
    assert c12 * d == (-(a * h - b * g)) * d;
    assert c12 * e == (-(a * h - b * g)) * e;
    assert c12 * f == (-(a * h - b * g)) * f;
    assert c20 * g == (b * f - c * e) * g;
    assert c20 * h == (b * f - c * e) * h;
    assert c20 * k == (b * f - c * e) * k;
    assert c21 * g == (-(a * f - c * d)) * g;
    assert c21 * h == (-(a * f - c * d)) * h;
    assert c21 * k == (-(a * f - c * d)) * k;
    assert c22 * g == (a * e - b * d) * g;
    assert c22 * h == (a * e - b * d) * h;
    assert c22 * k == (a * e - b * d) * k;
  }

  /** The 3 x 3 row cofactor identities, over the nine entries and the nine cofactors. */
  lemma RowIdentities3(a: int, b: int, c: int, d: int, e: int, f: int, g: int, h: int, k: int,
                       c00: int, c01: int, c02: int, c10: int, c11: int, c12: int, c20: int, c21: int, c22: int, det: int)
    requires det == a * (e * k - f * h) - b * (d * k - f * g) + c * (d * h - e * g)
    requires c00 == e * k - f * h && c01 == -(d * k - f * g) && c02 == d * h - e * g
    requires c10 == -(b * k - c * h) && c11 == a * k - c * g && c12 == -(a * h - b * g)
    requires c20 == b * f - c * e && c21 == -(a * f - c * d) && c22 == a * e - b * d
    ensures a * c00 + b * c01 + c * c02 == det
    ensures a * c10 + b * c11 + c * c12 == 0
    ensures a * c20 + b * c21 + c * c22 == 0
    ensures d * c00 + e * c01 + f * c02 == 0
    ensures d * c10 + e * c11 + f * c12 == det
    ensures d * c20 + e * c21 + f * c22 == 0
    ensures g * c00 + h * c01 + k * c02 == 0
    ensures g * c10 + h * c11 + k * c12 == 0
    ensures g * c20 + h * c21 + k * c22 == det
  {
    assert a * c00 == a * (e * k - f * h);
    assert a * c10 == a * (-(b * k - c * h));
    assert a * c20 == a * (b * f - c * e);
    assert b * c01 == b * (-(d * k - f * g));
    assert b * c11 == b * (a * k - c * g);
    assert b * c21 == b * (-(a * f - c * d));
    assert c * c02 == c * (d * h - e * g);
    assert c * c12 == c * (-(a * h - b * g));
    assert c * c22 == c * (a * e - b * d);
    assert d * c00 == d * (e * k - f * h);
    assert d * c10 == d * (-(b * k - c * h));
    assert d * c20 == d * (b * f - c * e);
    assert e * c01 == e * (-(d * k - f * g));
    assert e * c11 == e * (a * k - c * g);
    assert e * c21 == e * (-(a * f - c * d));
    assert f * c02 == f * (d * h - e * g);
    assert f * c12 == f * (-(a * h - b * g));
    assert f * c22 == f * (a * e - b * d);
    assert g * c00 == g * (e * k - f * h);
    assert g * c10 == g * (-(b * k - c * h));
    assert g * c20 == g * (b * f - c * e);
    assert h * c01 == h * (-(d * k - f * g));
    assert h * c11 == h * (a * k - c * g);
    assert h * c21 == h * (-(a * f - c * d));
    assert k * c02 == k * (d * h - e * g);
    assert k * c12 == k * (-(a * h - b * g));
    assert k * c22 == k * (a * e - b * d);
  }

  /** The nine cofactor equations of c over the entries of m, and det the 3 x 3 expansion. */
  predicate CofactorsOf3(m: Matrix, c: Matrix, det: int)
    requires IsSquare(m, 3) && IsSquare(c, 3)
  {
    && det == m[0][0] * (m[1][1] * m[2][2] - m[1][2] * m[2][1])
              - m[0][1] * (m[1][0] * m[2][2] - m[1][2] * m[2][0])
              + m[0][2] * (m[1][0] * m[2][1] - m[1][1] * m[2][0])
    && c[0][0] == m[1][1] * m[2][2] - m[1][2] * m[2][1]
    && c[0][1] == -(m[1][0] * m[2][2] - m[1][2] * m[2][0])
    && c[0][2] == m[1][0] * m[2][1] - m[1][1] * m[2][0]
    && c[1][0] == -(m[0][1] * m[2][2] - m[0][2] * m[2][1])
    && c[1][1] == m[0][0] * m[2][2] - m[0][2] * m[2][0]
    && c[1][2] == -(m[0][0] * m[2][1] - m[0][1] * m[2][0])
    && c[2][0] == m[0][1] * m[1][2] - m[0][2] * m[1][1]
    && c[2][1] == -(m[0][0] * m[1][2] - m[0][2] * m[1][0])
    && c[2][2] == m[0][0] * m[1][1] - m[0][1] * m[1][0]
  }

  /** Column identities read off at columns i and j. */
  lemma ColumnIdentityAt(m: Matrix, c: Matrix, det: int, i: nat, j: nat)
    requires IsSquare(m, 3) && IsSquare(c, 3) && i < 3 && j < 3 && CofactorsOf3(m, c, det)
    ensures c[0][i] * m[0][j] + c[1][i] * m[1][j] + c[2][i] * m[2][j] == (if i == j then det else 0)
  {
    ColumnIdentities3(m[0][0], m[0][1], m[0][2], m[1][0], m[1][1], m[1][2], m[2][0], m[2][1], m[2][2],
                      c[0][0], c[0][1], c[0][2], c[1][0], c[1][1], c[1][2], c[2][0], c[2][1], c[2][2], det);
  }

  /** Row identities read off at rows i and j. */
  lemma RowIdentityAt(m: Matrix, c: Matrix, det: int, i: nat, j: nat)
    requires IsSquare(m, 3) && IsSquare(c, 3) && i < 3 && j < 3 && CofactorsOf3(m, c, det)
    ensures m[i][0] * c[j][0] + m[i][1] * c[j][1] + m[i][2] * c[j][2] == (if i == j then det else 0)
  {
    RowIdentities3(m[0][0], m[0][1], m[0][2], m[1][0], m[1][1], m[1][2], m[2][0], m[2][1], m[2][2],
                   c[0][0], c[0][1], c[0][2], c[1][0], c[1][1], c[1][2], c[2][0], c[2][1], c[2][2], det);
  }

  /** Cofactor expansion of a 3 x 3 matrix along column i (against column j when i != j). */
  lemma ColumnExpansion3(m: Matrix, i: nat, j: nat)
    requires IsSquare(m, 3) && i < 3 && j < 3
    ensures var c := CofactorMatrix(m);
            c[0][i] * m[0][j] + c[1][i] * m[1][j] + c[2][i] * m[2][j] == (if i == j then Det(m) else 0)
  {
    var c := CofactorMatrix(m);
    Cofactors3(m);
    Det3(m);
    ColumnIdentityAt(m, c, Det(m), i, j);
  }

  /** Cofactor expansion of a 3 x 3 matrix along row i (against row j when i != j). */
  lemma RowExpansion3(m: Matrix, i: nat, j: nat)
    requires IsSquare(m, 3) && i < 3 && j < 3
    ensures var c := CofactorMatrix(m);
            m[i][0] * c[j][0] + m[i][1] * c[j][1] + m[i][2] * c[j][2] == (if i == j then Det(m) else 0)
  {
    var c := CofactorMatrix(m);
    Cofactors3(m);
    Det3(m);
    RowIdentityAt(m, c, Det(m), i, j);
  }

  /** The transposed cofactor matrix times m is det(m) times the identity (sizes 2 and 3). */
  lemma AdjugateTimes(m: Matrix, i: nat, j: nat)
    requires IsSquare(m, |m|) && (|m| == 2 || |m| == 3) && i < |m| && j < |m|
    ensures DotUpTo(Transpose(CofactorMatrix(m), |m|)[i], m, j, |m|) == (if i == j then Det(m) else 0)
  {
    var c := CofactorMatrix(m);
    var t := Transpose(c, |m|);
    assert DotUpTo(t[i], m, j, 1) == c[0][i] * m[0][j];
    assert DotUpTo(t[i], m, j, 2) == c[0][i] * m[0][j] + c[1][i] * m[1][j];
    if |m| == 3 {
      ColumnExpansion3(m, i, j);
      assert DotUpTo(t[i], m, j, 3) == c[0][i] * m[0][j] + c[1][i] * m[1][j] + c[2][i] * m[2][j];
    }
  }

  /** m times its transposed cofactor matrix is det(m) times the identity (sizes 2 and 3). */
  lemma TimesAdjugate(m: Matrix, i: nat, j: nat)
    requires IsSquare(m, |m|) && (|m| == 2 || |m| == 3) && i < |m| && j < |m|
    ensures DotUpTo(m[i], Transpose(CofactorMatrix(m), |m|), j, |m|) == (if i == j then Det(m) else 0)
  {
    var c := CofactorMatrix(m);
    var t := Transpose(c, |m|);
    assert DotUpTo(m[i], t, j, 1) == m[i][0] * c[j][0];
    assert DotUpTo(m[i], t, j, 2) == m[i][0] * c[j][0] + m[i][1] * c[j][1];
    if |m| == 3 {
      RowExpansion3(m, i, j);
      assert DotUpTo(m[i], t, j, 3) == m[i][0] * c[j][0] + m[i][1] * c[j][1] + m[i][2] * c[j][2];
    }
  }

  // ---------------------------------------------------------------------------
  // invertMatrix: what it returns, and what it evidently intends
  // ---------------------------------------------------------------------------

  /**
    `invertMatrix` as evidently intended: the true adjugate scaled by the
    inverse of the determinant, and no matrix at all when the determinant has
    no inverse modulo 26.
  */
  function InverseFixed(m: Matrix): (r: Option<Matrix>)
    requires IsSquare(m, |m|)
    ensures r.Some? ==> IsSquare(r.value, |m|)
    ensures r.Some? <==> HasInverse(Mod(Det(m), 26), 26)
  {
    match ModInverseChecked(Mod(Det(m), 26), 26)
    case None => None
    case Some(x) => Some(ScaledTranspose(CofactorMatrix(m), x, |m|))
  }

  /** The corrected inverse exists exactly when the determinant is coprime with 26. */
  lemma InverseFixedExists(m: Matrix)
    requires IsSquare(m, |m|)
    ensures InverseFixed(m).Some? <==> Gcd(Mod(Det(m), 26), 26) == 1
  {
    InverseIffCoprime26(Mod(Det(m), 26));
  }

  /** x inverts det modulo 26 when it inverts det's residue. */
  lemma DetInverse(det: int, x: int)
    requires x >= 1 && InvertsMod(Mod(det, 26), x, 26)
    ensures (x * det) % 26 == 1
  {
    JsRemNonNegative(Mod(det, 26) * x, 26);
    MulResidue(det, x, 26);
    assert x * det == det * x;
  }

  /** A sum congruent to x times det (or to 0) is congruent to 1 (or to 0) when x inverts det. */
  lemma ScaleDet(sum: int, unscaled: int, det: int, x: int, diagonal: bool)
    requires x >= 1 && InvertsMod(Mod(det, 26), x, 26)
    requires unscaled == (if diagonal then det else 0)
    requires sum % 26 == (x * unscaled) % 26
    ensures sum % 26 == (if diagonal then 1 else 0)
  {
    if diagonal {
      DetInverse(det, x);
    } else {
      assert x * unscaled == 0;
    }
  }

  /** Entry (i, l) of the scaled transpose, modulo 26, is x times entry (l, i) of c. */
  lemma ScaledTransposeEntry(c: Matrix, x: int, n: nat, i: nat, l: nat)
    requires IsSquare(c, n) && i < n && l < n
    ensures ScaledTranspose(c, x, n)[i][l] % 26 == (x * Transpose(c, n)[i][l]) % 26
  {
    assert x * Transpose(c, n)[i][l] == c[l][i] * x;
  }

  /**
    If the transposed c times m is det times the identity and x inverts det,
    the scaled transpose of c times m is the identity modulo 26 (entry i, j).
  */
  lemma ScaledLeftInverse(m: Matrix, c: Matrix, det: int, x: int, n: nat, i: nat, j: nat)
    requires n >= 1 && IsSquare(m, n) && IsSquare(c, n) && i < n && j < n
    requires DotUpTo(Transpose(c, n)[i], m, j, n) == (if i == j then det else 0)
    requires x >= 1 && InvertsMod(Mod(det, 26), x, 26)
    ensures var inv := ScaledTranspose(c, x, n);
            Conformable(inv, m) && MatMul(inv, m)[i][j] % 26 == (if i == j then 1 else 0)
  {
    var t := Transpose(c, n);
    var inv := ScaledTranspose(c, x, n);
    forall l | 0 <= l < n ensures inv[i][l] % 26 == (x * t[i][l]) % 26 {
      ScaledTransposeEntry(c, x, n, i, l);
    }
    DotCongruentLeft(t[i], inv[i], m, j, n, x);
    ScaleDet(DotUpTo(inv[i], m, j, n), DotUpTo(t[i], m, j, n), det, x, i == j);
    assert MatMul(inv, m)[i][j] == DotUpTo(inv[i], m, j, n);
  }

  /** The same on the right: m times the scaled transpose of c (entry i, j). */
  lemma ScaledRightInverse(m: Matrix, c: Matrix, det: int, x: int, n: nat, i: nat, j: nat)
    requires n >= 1 && IsSquare(m, n) && IsSquare(c, n) && i < n && j < n
    requires DotUpTo(m[i], Transpose(c, n), j, n) == (if i == j then det else 0)
    requires x >= 1 && InvertsMod(Mod(det, 26), x, 26)
    ensures var inv := ScaledTranspose(c, x, n);
            Conformable(m, inv) && MatMul(m, inv)[i][j] % 26 == (if i == j then 1 else 0)
  {
    var t := Transpose(c, n);
    var inv := ScaledTranspose(c, x, n);
    forall l | 0 <= l < n ensures inv[l][j] % 26 == (x * t[l][j]) % 26 {
      ScaledTransposeEntry(c, x, n, l, j);
    }
    DotCongruentRight(m[i], t, inv, j, n, x);
    ScaleDet(DotUpTo(m[i], inv, j, n), DotUpTo(m[i], t, j, n), det, x, i == j);
    assert MatMul(m, inv)[i][j] == DotUpTo(m[i], inv, j, n);
  }

  /**
    The corrected inverse of a 2 x 2 or 3 x 3 key is an inverse modulo 26 on
    both sides, with every entry in 0..25.
  */
  lemma InverseFixedCorrect(m: Matrix)
    requires IsSquare(m, |m|) && (|m| == 2 || |m| == 3) && InverseFixed(m).Some?
    ensures var inv := InverseFixed(m).value;
            && Conformable(inv, m) && IsIdentityMod26(MatMul(inv, m), |m|)
            && Conformable(m, inv) && IsIdentityMod26(MatMul(m, inv), |m|)
            && forall i, j :: 0 <= i < |m| && 0 <= j < |m| ==> 0 <= inv[i][j] < 26
  {
    var x := ModInverseChecked(Mod(Det(m), 26), 26).value;
    var c := CofactorMatrix(m);
    forall i, j | 0 <= i < |m| && 0 <= j < |m|
      ensures MatMul(InverseFixed(m).value, m)[i][j] % 26 == (if i == j then 1 else 0)
      ensures MatMul(m, InverseFixed(m).value)[i][j] % 26 == (if i == j then 1 else 0)
    {
      AdjugateTimes(m, i, j);
      TimesAdjugate(m, i, j);
      ScaledLeftInverse(m, c, Det(m), x, |m|, i, j);
      ScaledRightInverse(m, c, Det(m), x, |m|, i, j);
    }
  }

  /**
    For 3 x 3 keys `invertMatrix` as written is right whenever the determinant
    is coprime with 26: it returns the corrected inverse.
  */
  lemma Inverse3Correct(m: Matrix)
    requires IsSquare(m, 3) && Gcd(Mod(Det(m), 26), 26) == 1
    ensures Inverse(m).Some? && Inverse(m) == InverseFixed(m)
  {
    InverseFixedExists(m);
    InverseNeverNone(m);
    AdjIsCofactorMatrix(m);
  }

  /**
    For 2 x 2 keys `invertMatrix` as written returns the transpose of the
    inverse: the base case of `adjugate` already transposes, and
    `invertMatrix` transposes again.
  */
  lemma Inverse2Transposed(m: Matrix)
    requires IsSquare(m, 2) && InverseFixed(m).Some?
    ensures Inverse(m) == Some(Transpose(InverseFixed(m).value, 2))
  {
    var x := ModInverseChecked(Mod(Det(m), 26), 26).value;
    var fixed := InverseFixed(m).value;
    Adj2Transposed(m);
    var written := ScaledTranspose(Adj(m), x, 2);
    var t := Transpose(fixed, 2);
    forall i, j | 0 <= i < 2 && 0 <= j < 2 ensures written[i][j] == t[i][j] {
      assert Adj(m)[j][i] == CofactorMatrix(m)[i][j];
    }
    assert written[0] == t[0] && written[1] == t[1];
    assert written == t;
    assert ModInverseOf(Mod(Det(m), 26), 26) == x;
    assert Inverse(m) == Some(written);
  }

  /**
    A key where that shows: [[1, 2], [0, 1]] has determinant 1, yet what
    `invertMatrix` returns, [[1, 0], [24, 1]], is not its inverse modulo 26,
    while the corrected [[1, 24], [0, 1]] is.
  */
  lemma Inverse2Counterexample()
    ensures Inverse([[1, 2], [0, 1]]) == Some([[1, 0], [24, 1]])
    ensures !IsIdentityMod26(MatMul([[1, 2], [0, 1]], [[1, 0], [24, 1]]), 2)
    ensures InverseFixed([[1, 2], [0, 1]]) == Some([[1, 24], [0, 1]])
  {
    var m: Matrix := [[1, 2], [0, 1]];
    assert Det(m) == 1;
    assert InvertsMod(1, 1, 26);
    assert ModInverseOf(1, 26) == 1;
    assert Mod(Det(m), 26) == 1;
    var written := ScaledTranspose(Adj(m), 1, 2);
    assert written[0] == [1, 0] && written[1] == [24, 1];
    assert written == [[1, 0], [24, 1]];
    assert Inverse(m) == Some(written);
    assert HasInverse(1, 26);
    assert ModInverseChecked(1, 26) == Some(1);
    var fixed := ScaledTranspose(CofactorMatrix(m), 1, 2);
    assert fixed[0] == [1, 24] && fixed[1] == [0, 1];
    assert fixed == [[1, 24], [0, 1]];
    assert MatMul(m, [[1, 0], [24, 1]])[0][0] == 49;
  }
}
