/**
  The Hill component (src/components/HillCipher.tsx): a 2 x 2 or 3 x 3 key
  matrix over the letters A = 0 .. Z = 25, encryption by `multiplyMatrices`
  on the padded text, decryption with `invertMatrix`.
*/
module Hill {
  import opened ModArith
  import opened Alphabet
  import opened Matrices
  import opened MatrixAlgebra
  import opened Results

  const InvalidText := "Please enter valid text"
  const NotInvertible := "The key matrix is not invertible. Please choose a different matrix."

  /** The decimal digits of n, as a template literal prints them. */
  function Decimal(n: nat): (s: string)
    ensures |s| >= 1
  {
    if n < 10 then [('0' as int + n) as char] else Decimal(n / 10) + [('0' as int + n % 10) as char]
  }

  function LengthError(n: nat): string
  {
    "Ciphertext length must be a multiple of matrix size (" + Decimal(n) + ")"
  }

  /**
    What one click does: a text for the other area, an error line, or a
    TypeError thrown by `multiplyMatrices` when the text matrix has fewer rows
    than the key (the error line has already been cleared by then).
  */
  datatype Outcome = Text(value: string) | Message(text: string) | Thrown

  /** The sizes the size selector offers. */
  predicate ValidSize(n: nat) { n == 2 || n == 3 }

  // ---------------------------------------------------------------------------
  // Padding with 'X' (HillCipher.tsx:61-64)
  // ---------------------------------------------------------------------------

  /** How many 'X's the padding loop appends. */
  function PadLength(len: nat, n: nat): (k: nat)
    requires n >= 1
    ensures k < n && (len + k) % n == 0
  {
    var r := len % n;
    if r == 0 then 0
    else
      ModUnique(len + (n - r), n, len / n + 1, 0);
      n - r
  }

  /** Appending fewer 'X's than that leaves the length off a multiple of n. */
  lemma PadShort(len: nat, n: nat, k: nat)
    requires n >= 1 && k < PadLength(len, n)
    ensures (len + k) % n != 0
  {
    var q, r := len / n, len % n;
    ModUnique(len + k, n, q, r + k);
  }

  /** The text followed by enough 'X's to make its length a multiple of n. */
  function Padded(text: string, n: nat): (p: string)
    requires n >= 1
    ensures |text| <= |p| < |text| + n && |p| % n == 0 && p[..|text|] == text
    ensures forall i :: |text| <= i < |p| ==> p[i] == 'X'
    ensures AllLetters(text) ==> AllLetters(p)
  {
    text + seq(PadLength(|text|, n), _ => 'X')
  }

  /** The padding loop. */
  method PadText(text: string, n: nat) returns (processed: string)
    requires n >= 1
    ensures processed == Padded(text, n)
  {
    processed := text;
    while |processed| % n != 0
      invariant |text| <= |processed| <= |text| + PadLength(|text|, n)
      invariant processed == text + seq(|processed| - |text|, _ => 'X')
      decreases PadLength(|text|, n) - (|processed| - |text|)
    {
      if |processed| - |text| == PadLength(|text|, n) {
        assert false;
      }
      processed := processed + "X";
    }
    if |processed| - |text| < PadLength(|text|, n) {
      PadShort(|text|, n, |processed| - |text|);
    }
  }

  // ---------------------------------------------------------------------------
  // Reading a result matrix back as text (HillCipher.tsx:71-76 and 125-130)
  // ---------------------------------------------------------------------------

  /** Column i of r as letters: `numberToLetter(resultMatrix[j][i])` for j < n. */
  function ColumnLetters(r: Matrix, n: nat, i: nat): (s: string)
    requires |r| >= n && forall j :: 0 <= j < n ==> i < |r[j]|
    ensures |s| == n && AllLetters(s)
  {
    seq(n, j requires 0 <= j < n => NumberToLetter(r[j][i]))
  }

  /** The first w columns of r, column after column. */
  function ReadColumns(r: Matrix, n: nat, w: nat): (s: string)
    requires |r| >= n && forall j :: 0 <= j < n ==> w <= |r[j]|
    ensures |s| == w * n && AllLetters(s)
  {
    if w == 0 then ""
    else
      var s := ReadColumns(r, n, w - 1) + ColumnLetters(r, n, w - 1);
      assert |s| == (w - 1) * n + n == w * n;
      s
  }

  /** Row i of n entries ends inside w rows when i < w. */
  lemma RowEndBound(i: nat, n: nat, w: nat)
    requires i < w
    ensures i * n + n <= w * n
  {
    assert w * n - i * n == (w - i) * n;
    if n > 0 {
      MulAtLeast(n, w - i);
    }
  }

  /** Letter i * n + j of the output is entry (j, i) of the matrix. */
  lemma {:induction false} ReadColumnsAt(r: Matrix, n: nat, w: nat, i: nat, j: nat)
    requires |r| >= n && forall k :: 0 <= k < n ==> w <= |r[k]|
    requires i < w && j < n
    ensures i * n + j < w * n
    ensures ReadColumns(r, n, w)[i * n + j] == NumberToLetter(r[j][i])
  {
    RowEndBound(i, n, w);
    var s, prefix, last := ReadColumns(r, n, w), ReadColumns(r, n, w - 1), ColumnLetters(r, n, w - 1);
    assert s == prefix + last;
    var p := i * n + j;
    if i < w - 1 {
      RowEndBound(i, n, w - 1);
      ReadColumnsAt(r, n, w - 1, i, j);
      assert p < |prefix|;
    } else {
      assert p == |prefix| + j;
    }
  }

  /** The output loop. */
  method ColumnsToText(r: Matrix, n: nat, w: nat) returns (result: string)
    requires |r| >= n && forall j :: 0 <= j < n ==> w <= |r[j]|
    ensures result == ReadColumns(r, n, w)
  {
    result := "";
    var i := 0;
    while i < w
      invariant 0 <= i <= w
      invariant result == ReadColumns(r, n, i)
    {
      var j := 0;
      while j < n
        invariant 0 <= j <= n
        invariant result == ReadColumns(r, n, i) + ColumnLetters(r, n, i)[..j]
      {
        assert ColumnLetters(r, n, i)[..j + 1] == ColumnLetters(r, n, i)[..j] + [NumberToLetter(r[j][i])];
        result := result + [NumberToLetter(r[j][i])];
        j := j + 1;
      }
      i := i + 1;
    }
  }

  /** The transposition loop of `decrypt`: cols rows of rows entries, entry (i, j) = m[j][i]. */
  function TransposeRect(m: Matrix, rows: nat, cols: nat): (t: Matrix)
    requires |m| == rows && forall j :: 0 <= j < rows ==> cols <= |m[j]|
    ensures |t| == cols && forall i :: 0 <= i < cols ==> |t[i]| == rows
  {
    seq(cols, i requires 0 <= i < cols => seq(rows, j requires 0 <= j < rows => m[j][i]))
  }

  /** The chunking loop of `decrypt`: w rows of n letter numbers. */
  method ChunkText(text: string, n: nat, w: nat) returns (textMatrix: Matrix)
    requires n >= 1 && |text| == w * n
    ensures CeilDiv(|text|, n) == w && textMatrix == TextMatrix(text, n)
  {
    ModUnique(|text|, n, w, 0);
    CeilDivExact(|text|, n);
    textMatrix := [];
    var i := 0;
    while i < w
      invariant 0 <= i <= w
      invariant textMatrix == TextMatrix(text, n)[..i]
    {
      RowEndBound(i, n, w);
      var chunk: seq<int> := [];
      var j := 0;
      while j < n
        invariant 0 <= j <= n
        invariant chunk == TextMatrix(text, n)[i][..j]
      {
        var charIndex := i * n + j;
        chunk := chunk + [LetterToNumber(text[charIndex])];
        j := j + 1;
      }
      assert chunk == TextMatrix(text, n)[i];
      textMatrix := textMatrix + [chunk];
      i := i + 1;
    }
  }

  /** The transposition loop of `decrypt`. */
  method TransposeChunks(m: Matrix, rows: nat, cols: nat) returns (t: Matrix)
    requires |m| == rows && forall j :: 0 <= j < rows ==> cols <= |m[j]|
    ensures t == TransposeRect(m, rows, cols)
  {
    t := [];
    var i := 0;
    while i < cols
      invariant 0 <= i <= cols
      invariant t == TransposeRect(m, rows, cols)[..i]
    {
      var column: seq<int> := [];
      var j := 0;
      while j < rows
        invariant 0 <= j <= rows
        invariant column == TransposeRect(m, rows, cols)[i][..j]
      {
        column := column + [m[j][i]];
        j := j + 1;
      }
      assert column == TransposeRect(m, rows, cols)[i];
      t := t + [column];
      i := i + 1;
    }
  }

  /**
    The steps of `decrypt` after its checks (HillCipher.tsx:104-130): chunk,
    transpose, multiply by the inverse and read out column by column.
  */
  method DecryptBlocks(text: string, inv: Matrix, n: nat, w: nat) returns (result: string)
    requires n >= 1 && w >= 1 && IsSquare(inv, n) && |text| == w * n
    ensures CeilDiv(|text|, n) == w
    ensures result == ReadColumns(MatMul(inv, TransposeRect(TextMatrix(text, n), w, n)), n, w)
  {
    var textMatrix := ChunkText(text, n, w);
    var transposedText := TransposeChunks(textMatrix, w, n);
    var resultMatrix := MultiplyMatrices(inv, transposedText);
    result := ColumnsToText(resultMatrix, n, |resultMatrix[0]|);
  }

  // ---------------------------------------------------------------------------
  // encrypt and decrypt as written (HillCipher.tsx:51-133)
  // ---------------------------------------------------------------------------

  /**
    What `encrypt` computes: the padded text is cut into rows of n letters,
    the key multiplies the matrix of the first n rows, and the n x n result is
    read out column by column.
  */
  function EncryptText(plaintext: string, key: Matrix, n: nat): Outcome
    requires ValidSize(n) && IsSquare(key, n)
  {
    var text := NormalizeText(plaintext);
    if text == "" then Message(InvalidText)
    else
      var p := TextMatrix(Padded(text, n), n);
      if |p| < n then Thrown
      else Text(ReadColumns(MatMul(key, p), n, n))
  }

  /**
    What `decrypt` computes: the text is cut into chunks of n letters, the
    inverse multiplies the matrix whose columns are the chunks, and the result
    is read out column by column.
  */
  function DecryptText(ciphertext: string, key: Matrix, n: nat): Outcome
    requires ValidSize(n) && IsSquare(key, n)
  {
    var text := NormalizeText(ciphertext);
    if text == "" then Message(InvalidText)
    else
      match Inverse(key)
      case None => Message(NotInvertible)
      case Some(inv) =>
        if |text| % n != 0 then Message(LengthError(n))
        else
          CeilDivExact(|text|, n);
          var w := |text| / n;
          Text(ReadColumns(MatMul(inv, TransposeRect(TextMatrix(text, n), w, n)), n, w))
  }

  // ---------------------------------------------------------------------------
  // The chunk-wise cipher the component evidently intends
  // ---------------------------------------------------------------------------

  /** Encryption chunk by chunk: every chunk of n letters is multiplied by the key. */
  function EncryptFixed(plaintext: string, key: Matrix, n: nat): Outcome
    requires ValidSize(n) && IsSquare(key, n)
  {
    var text := NormalizeText(plaintext);
    if text == "" then Message(InvalidText)
    else
      var p := Padded(text, n);
      CeilDivExact(|p|, n);
      var w := |p| / n;
      Text(ReadColumns(MatMul(key, TransposeRect(TextMatrix(p, n), w, n)), n, w))
  }

  /** `decrypt` with the corrected inverse, which refuses a key whose determinant has no inverse. */
  function DecryptFixed(ciphertext: string, key: Matrix, n: nat): Outcome
    requires ValidSize(n) && IsSquare(key, n)
  {
    var text := NormalizeText(ciphertext);
    if text == "" then Message(InvalidText)
    else
      match InverseFixed(key)
      case None => Message(NotInvertible)
      case Some(inv) =>
        if |text| % n != 0 then Message(LengthError(n))
        else
          CeilDivExact(|text|, n);
          var w := |text| / n;
          Text(ReadColumns(MatMul(inv, TransposeRect(TextMatrix(text, n), w, n)), n, w))
  }

  // ---------------------------------------------------------------------------
  // Decryption undoes a key multiplication
  // ---------------------------------------------------------------------------

  /**
    If inv * key is the identity modulo 26 and y agrees with key * x modulo 26
    in column i, then inv * y agrees with x in that column.
  */
  lemma UndoKey(key: Matrix, inv: Matrix, x: Matrix, y: Matrix, n: nat, w: nat, j: nat, i: nat)
    requires n >= 1 && IsSquare(key, n) && IsSquare(inv, n) && j < n && i < w
    requires |x| == n && |y| == n && forall t :: 0 <= t < n ==> |x[t]| == w && |y[t]| == w
    requires IsIdentityMod26(MatMul(inv, key), n)
    requires forall t :: 0 <= t < n ==> y[t][i] % 26 == MatMul(key, x)[t][i] % 26
    ensures Conformable(inv, y) && MatMul(inv, y)[j][i] % 26 == x[j][i] % 26
  {
    var e := MatMul(key, x);
    var ik := MatMul(inv, key);
    DotCongruentRight(inv[j], e, y, i, n, 1);
    MatMulAssoc(inv, key, x, n, j, i);
    IdentityRowPicks(ik[j], x, j, i, n);
    assert MatMul(inv, y)[j][i] == DotUpTo(inv[j], y, i, n);
    assert MatMul(inv, e)[j][i] == DotUpTo(inv[j], e, i, n);
    assert MatMul(ik, x)[j][i] == DotUpTo(ik[j], x, i, n);
  }

  /** Cutting the output of `ReadColumns` back into chunks gives the matrix again, modulo 26. */
  lemma ReadBack(e: Matrix, n: nat, w: nat, i: nat, j: nat)
    requires n >= 1 && |e| == n && forall t :: 0 <= t < n ==> |e[t]| == w
    requires i < w && j < n
    ensures var text := ReadColumns(e, n, w);
            CeilDiv(|text|, n) == w &&
            TransposeRect(TextMatrix(text, n), w, n)[j][i] % 26 == e[j][i] % 26
  {
    var text := ReadColumns(e, n, w);
    ModUnique(|text|, n, w, 0);
    CeilDivExact(|text|, n);
    ReadColumnsAt(e, n, w, i, j);
    var m := TextMatrix(text, n);
    assert m[i][j] == LetterToNumber(text[i * n + j]);
    var v := Mod(e[j][i], 26);
    ModUnique(v, 26, 0, v);
    assert TransposeRect(m, w, n)[j][i] == m[i][j];
  }

  /**
    Reading key * x out column by column, cutting that text back into chunks
    and multiplying by an inverse of the key gives x back, letter by letter.
  */
  lemma UndoReadColumns(key: Matrix, inv: Matrix, x: Matrix, n: nat, w: nat, i: nat, j: nat)
    requires n >= 1 && IsSquare(key, n) && IsSquare(inv, n) && i < w && j < n
    requires |x| == n && forall t :: 0 <= t < n ==> |x[t]| == w
    requires IsIdentityMod26(MatMul(inv, key), n)
    ensures CeilDiv(|ReadColumns(MatMul(key, x), n, w)|, n) == w && i * n + j < w * n
    ensures var y := TransposeRect(TextMatrix(ReadColumns(MatMul(key, x), n, w), n), w, n);
            && Conformable(inv, y)
            && ReadColumns(MatMul(inv, y), n, w)[i * n + j] == NumberToLetter(x[j][i])
  {
    var e := MatMul(key, x);
    var c := ReadColumns(e, n, w);
    ReadBack(e, n, w, i, j);
    var y := TransposeRect(TextMatrix(c, n), w, n);
    forall u | 0 <= u < n ensures y[u][i] % 26 == e[u][i] % 26 {
      ReadBack(e, n, w, i, u);
    }
    UndoKey(key, inv, x, y, n, w, j, i);
    var d := MatMul(inv, y);
    ReadColumnsAt(d, n, w, i, j);
    SameResidueSameLetter(d[j][i], x[j][i]);
  }

  /** The corrected encryption on a text with letters: key times the chunks as columns, read out. */
  lemma EncryptFixedShape(plaintext: string, key: Matrix, n: nat)
    requires ValidSize(n) && IsSquare(key, n) && NormalizeText(plaintext) != ""
    ensures var p := Padded(NormalizeText(plaintext), n);
            CeilDiv(|p|, n) == |p| / n && |p| == (|p| / n) * n
    ensures var p := Padded(NormalizeText(plaintext), n);
            EncryptFixed(plaintext, key, n)
              == Text(ReadColumns(MatMul(key, TransposeRect(TextMatrix(p, n), |p| / n, n)), n, |p| / n))
  {
    var p := Padded(NormalizeText(plaintext), n);
    CeilDivExact(|p|, n);
    ModUnique(|p|, n, |p| / n, 0);
  }

  /** The corrected decryption of w chunks of letters, when the key has an inverse. */
  lemma DecryptFixedShape(c: string, key: Matrix, n: nat, w: nat)
    requires ValidSize(n) && IsSquare(key, n) && InverseFixed(key).Some?
    requires AllLetters(c) && c != "" && |c| == w * n
    ensures CeilDiv(|c|, n) == w
    ensures DecryptFixed(c, key, n)
              == Text(ReadColumns(MatMul(InverseFixed(key).value, TransposeRect(TextMatrix(c, n), w, n)), n, w))
  {
    ModUnique(|c|, n, w, 0);
    CeilDivExact(|c|, n);
    NormalizeLetters(c);
  }

  /**
    The corrected cipher round-trips: with a key whose determinant is coprime
    with 26, decryption gives back the normalized plaintext with its 'X' padding.
  */
  lemma RoundTripFixed(plaintext: string, key: Matrix, n: nat)
    requires ValidSize(n) && IsSquare(key, n) && Gcd(Mod(Det(key), 26), 26) == 1
    requires NormalizeText(plaintext) != ""
    ensures EncryptFixed(plaintext, key, n).Text?
    ensures DecryptFixed(EncryptFixed(plaintext, key, n).value, key, n) == Text(Padded(NormalizeText(plaintext), n))
  {
    InverseFixedExists(key);
    InverseFixedCorrect(key);
    EncryptFixedShape(plaintext, key, n);
    var p := Padded(NormalizeText(plaintext), n);
    var w := |p| / n;
    var c := ReadColumns(MatMul(key, TransposeRect(TextMatrix(p, n), w, n)), n, w);
    var inv := InverseFixed(key).value;
    BlocksRoundTrip(p, key, inv, n, w);
    DecryptFixedShape(c, key, n, w);
  }

  /** Multiplying every chunk by the key and then by a left inverse gives the letters back. */
  lemma BlocksRoundTrip(p: string, key: Matrix, inv: Matrix, n: nat, w: nat)
    requires n >= 1 && IsSquare(key, n) && IsSquare(inv, n) && IsIdentityMod26(MatMul(inv, key), n)
    requires AllLetters(p) && |p| == w * n
    ensures CeilDiv(|p|, n) == w
    ensures var c := ReadColumns(MatMul(key, TransposeRect(TextMatrix(p, n), w, n)), n, w);
            CeilDiv(|c|, n) == w
            && ReadColumns(MatMul(inv, TransposeRect(TextMatrix(c, n), w, n)), n, w) == p
  {
    ModUnique(|p|, n, w, 0);
    CeilDivExact(|p|, n);
    var c := ReadColumns(MatMul(key, TransposeRect(TextMatrix(p, n), w, n)), n, w);
    var out := ReadColumns(MatMul(inv, TransposeRect(TextMatrix(c, n), w, n)), n, w);
    forall k | 0 <= k < |p| ensures out[k] == p[k] {
      LetterBack(p, key, inv, n, w, k);
    }
    SameText(out, p);
  }

  /** One letter of the corrected round trip. */
  lemma LetterBack(p: string, key: Matrix, inv: Matrix, n: nat, w: nat, k: nat)
    requires n >= 1 && IsSquare(key, n) && IsSquare(inv, n) && IsIdentityMod26(MatMul(inv, key), n)
    requires AllLetters(p) && |p| == w * n && k < |p|
    ensures CeilDiv(|p|, n) == w
    ensures var x := TransposeRect(TextMatrix(p, n), w, n);
            var c := ReadColumns(MatMul(key, x), n, w);
            CeilDiv(|c|, n) == w
    ensures var x := TransposeRect(TextMatrix(p, n), w, n);
            var c := ReadColumns(MatMul(key, x), n, w);
            ReadColumns(MatMul(inv, TransposeRect(TextMatrix(c, n), w, n)), n, w)[k] == p[k]
  {
    ModUnique(|p|, n, w, 0);
    CeilDivExact(|p|, n);
    var i, j := k / n, k % n;
    ModUnique(k, n, i, j);
    RowEndBound(i, n, w);
    var t := TextMatrix(p, n);
    var x := TransposeRect(t, w, n);
    TextMatrixLetters(p, n, i, j);
    assert NumberToLetter(x[j][i]) == p[k] by {
      assert x[j][i] == t[i][j];
    }
    UndoReadColumns(key, inv, x, n, w, i, j);
  }

  // ---------------------------------------------------------------------------
  // What the component as written does to a message
  // ---------------------------------------------------------------------------

  /** For n >= 1, w rows of n letters are fewer than n rows exactly when w * n < n * n. */
  lemma FewerRows(w: nat, n: nat)
    requires n >= 1
    ensures w < n <==> w * n < n * n
  {
    assert n * n - w * n == (n - w) * n;
    if w < n {
      MulAtLeast(n, n - w);
    } else if w > n {
      MulAtLeast(n, w - n);
    }
  }

  /**
    Encryption as written throws when the padded text has fewer than n * n
    letters, and otherwise always produces exactly n * n letters.
  */
  lemma EncryptTextLength(plaintext: string, key: Matrix, n: nat)
    requires ValidSize(n) && IsSquare(key, n) && NormalizeText(plaintext) != ""
    ensures EncryptText(plaintext, key, n) == Thrown <==> |Padded(NormalizeText(plaintext), n)| < n * n
    ensures EncryptText(plaintext, key, n).Text? ==> |EncryptText(plaintext, key, n).value| == n * n
    ensures EncryptText(plaintext, key, n).Message? == false
  {
    var p := Padded(NormalizeText(plaintext), n);
    CeilDivExact(|p|, n);
    ModUnique(|p|, n, |p| / n, 0);
    FewerRows(|p| / n, n);
  }

  /** Decryption as written keeps the length of the normalized ciphertext. */
  lemma DecryptTextLength(ciphertext: string, key: Matrix, n: nat)
    requires ValidSize(n) && IsSquare(key, n)
    ensures DecryptText(ciphertext, key, n).Text? ==>
              |DecryptText(ciphertext, key, n).value| == |NormalizeText(ciphertext)|
  {
    var text := NormalizeText(ciphertext);
    if text != "" && |text| % n == 0 {
      ModUnique(|text|, n, |text| / n, 0);
    }
  }

  /**
    A padded message longer than n * n letters loses letters: the ciphertext
    is shorter, and no decryption gives the message back.
  */
  lemma LettersDropped(plaintext: string, key: Matrix, n: nat)
    requires ValidSize(n) && IsSquare(key, n)
    requires |Padded(NormalizeText(plaintext), n)| > n * n
    ensures EncryptText(plaintext, key, n).Text?
    ensures |EncryptText(plaintext, key, n).value| < |Padded(NormalizeText(plaintext), n)|
    ensures DecryptText(EncryptText(plaintext, key, n).value, key, n) != Text(Padded(NormalizeText(plaintext), n))
  {
    EncryptTextLength(plaintext, key, n);
    var c := EncryptText(plaintext, key, n).value;
    NormalizeLetters(c);
    DecryptTextLength(c, key, n);
  }

  /** The text read out column by column from its n x n matrix of rows: letter i * n + j is letter j * n + i. */
  function TransposedText(p: string, n: nat): (r: string)
    requires n >= 1 && |p| == n * n
    ensures |r| == |p|
  {
    seq(|p|, k requires 0 <= k < |p| => p[TransposedIndex(k, n)])
  }

  /** Where letter k of the column-wise reading sits in the row-wise text. */
  function TransposedIndex(k: nat, n: nat): (t: nat)
    requires n >= 1 && k < n * n
    ensures t < n * n
  {
    TransposedIndexBound(k, n);
    (k % n) * n + k / n
  }

  lemma TransposedIndexBound(k: nat, n: nat)
    requires n >= 1 && k < n * n
    ensures 0 <= (k % n) * n + k / n < n * n
  {
    var j := k % n;
    QuotientBelow(k, n);
    RowEndBound(j, n, n);
    if j >= 1 {
      MulAtLeast(j, n);
    }
  }

  /** An index below n * n has quotient and remainder by n below n. */
  lemma QuotientBelow(k: nat, n: nat)
    requires n >= 1 && k < n * n
    ensures k / n < n && k % n < n
  {
    if k / n >= n {
      RowEndBound(n - 1, n, k / n);
      assert false;
    }
  }

  /** Decryption as written when the key has an inverse. */
  lemma DecryptTextShape(c: string, key: Matrix, n: nat, w: nat)
    requires ValidSize(n) && IsSquare(key, n) && Inverse(key).Some?
    requires AllLetters(c) && c != "" && |c| == w * n
    ensures CeilDiv(|c|, n) == w
    ensures DecryptText(c, key, n)
              == Text(ReadColumns(MatMul(Inverse(key).value, TransposeRect(TextMatrix(c, n), w, n)), n, w))
  {
    ModUnique(|c|, n, w, 0);
    CeilDivExact(|c|, n);
    NormalizeLetters(c);
  }

  /** Encryption as written on a padded text of exactly n * n letters. */
  lemma EncryptTextShape(plaintext: string, key: Matrix, n: nat)
    requires ValidSize(n) && IsSquare(key, n) && |Padded(NormalizeText(plaintext), n)| == n * n
    ensures CeilDiv(n * n, n) == n
    ensures EncryptText(plaintext, key, n)
              == Text(ReadColumns(MatMul(key, TextMatrix(Padded(NormalizeText(plaintext), n), n)), n, n))
  {
    ModUnique(n * n, n, n, 0);
    CeilDivExact(n * n, n);
  }

  /**
    With a 3 x 3 key whose determinant is coprime with 26 and a message of 7
    to 9 letters, decryption as written returns the padded message transposed:
    the rows of the text matrix are encrypted as if they were columns.
  */
  lemma RoundTripTransposes(plaintext: string, key: Matrix)
    requires IsSquare(key, 3) && Gcd(Mod(Det(key), 26), 26) == 1
    requires |Padded(NormalizeText(plaintext), 3)| == 9
    ensures EncryptText(plaintext, key, 3).Text?
    ensures DecryptText(EncryptText(plaintext, key, 3).value, key, 3)
              == Text(TransposedText(Padded(NormalizeText(plaintext), 3), 3))
  {
    var p := Padded(NormalizeText(plaintext), 3);
    EncryptTextShape(plaintext, key, 3);
    var t := TextMatrix(p, 3);
    var c := ReadColumns(MatMul(key, t), 3, 3);
    Inverse3Correct(key);
    InverseFixedCorrect(key);
    var inv := Inverse(key).value;
    NineLettersTransposed(p, key, inv);
    DecryptTextShape(c, key, 3, 3);
  }

  /** On nine letters, the as-written encryption followed by decryption with a left inverse transposes the text. */
  lemma NineLettersTransposed(p: string, key: Matrix, inv: Matrix)
    requires IsSquare(key, 3) && IsSquare(inv, 3) && IsIdentityMod26(MatMul(inv, key), 3)
    requires AllLetters(p) && |p| == 9
    ensures CeilDiv(|p|, 3) == 3
    ensures var c := ReadColumns(MatMul(key, TextMatrix(p, 3)), 3, 3);
            CeilDiv(|c|, 3) == 3
            && ReadColumns(MatMul(inv, TransposeRect(TextMatrix(c, 3), 3, 3)), 3, 3) == TransposedText(p, 3)
  {
    NineLettersShape(p, key);
    var c := ReadColumns(MatMul(key, TextMatrix(p, 3)), 3, 3);
    var out := ReadColumns(MatMul(inv, TransposeRect(TextMatrix(c, 3), 3, 3)), 3, 3);
    var tp := TransposedText(p, 3);
    forall k | 0 <= k < 9 ensures out[k] == tp[k] {
      LetterTransposed(p, key, inv, c, out, tp, k);
    }
    SameText(out, tp);
  }

  /** Nine letters make a 3 x 3 block, and so does their encryption. */
  lemma NineLettersShape(p: string, key: Matrix)
    requires IsSquare(key, 3) && AllLetters(p) && |p| == 9
    ensures CeilDiv(|p|, 3) == 3
    ensures var c := ReadColumns(MatMul(key, TextMatrix(p, 3)), 3, 3);
            CeilDiv(|c|, 3) == 3 && |c| == 9
  {
    CeilDivExact(9, 3);
  }

  /** One letter of the as-written round trip on nine letters. */
  lemma LetterTransposed(p: string, key: Matrix, inv: Matrix, c: string, out: string, tp: string, k: nat)
    requires IsSquare(key, 3) && IsSquare(inv, 3) && IsIdentityMod26(MatMul(inv, key), 3)
    requires AllLetters(p) && |p| == 9 && k < 9
    requires c == ReadColumns(MatMul(key, TextMatrix(p, 3)), 3, 3) && |c| == 9 && CeilDiv(|c|, 3) == 3
    requires out == ReadColumns(MatMul(inv, TransposeRect(TextMatrix(c, 3), 3, 3)), 3, 3)
    requires tp == TransposedText(p, 3)
    ensures |out| == 9 && out[k] == tp[k]
  {
    var i, j := k / 3, k % 3;
    ModUnique(k, 3, i, j);
    var t := TextMatrix(p, 3);
    TextMatrixLetters(p, 3, j, i);
    assert tp[k] == p[j * 3 + i];
    UndoReadColumns(key, inv, t, 3, 3, i, j);
  }

  /** The component's initial key. */
  const DefaultKey: Matrix := [[1, 2], [3, 4]]

  /**
    The initial key has determinant -2, which has no inverse modulo 26, yet
    decryption as written goes ahead; the corrected decryption refuses it.
  */
  lemma DefaultKeyExample()
    ensures Det(DefaultKey) == -2
    ensures DecryptText("AB", DefaultKey, 2).Text?
    ensures DecryptFixed("AB", DefaultKey, 2) == Message(NotInvertible)
  {
    assert Mod(-2, 26) == 24;
    InverseNeverNone(DefaultKey);
    InverseFixedExists(DefaultKey);
    assert Gcd(24, 26) == 2;
    NormalizeLetters("AB");
  }

  /**
    With the identity key that a size change installs, encryption as written
    of a text that pads to n * n letters returns it read out by columns (for
    n = 2, "ABCD" becomes "ACBD").
  */
  lemma IdentityKeyTransposes(plaintext: string, n: nat)
    requires ValidSize(n) && |Padded(NormalizeText(plaintext), n)| == n * n
    ensures EncryptText(plaintext, Identity(n), n) == Text(TransposedText(Padded(NormalizeText(plaintext), n), n))
  {
    var p := Padded(NormalizeText(plaintext), n);
    EncryptTextShape(plaintext, Identity(n), n);
    var t := TextMatrix(p, n);
    IdentityLeft(n, t);
    var out := ReadColumns(t, n, n);
    forall k | 0 <= k < n * n ensures out[k] == TransposedText(p, n)[k] {
      IdentityLetter(p, n, k);
    }
  }

  lemma IdentityKeyExample()
    ensures EncryptText("ABCD", Identity(2), 2) == Text("ACBD")
  {
    NormalizeLetters("ABCD");
    assert PadLength(4, 2) == 0;
    assert Padded("ABCD", 2) == "ABCD" + [];
    IdentityKeyTransposes("ABCD", 2);
    Transposed2("ABCD", 2);
  }

  /** The 2 x 2 transpose of a four-letter text swaps its middle letters. */
  lemma Transposed2(p: string, n: nat)
    requires n == 2 && |p| == 4
    ensures TransposedText(p, n) == [p[0], p[2], p[1], p[3]]
  {
    var t := TransposedText(p, n);
    TransposedAt(p, n, 0, 0);
    TransposedAt(p, n, 0, 1);
    TransposedAt(p, n, 1, 0);
    TransposedAt(p, n, 1, 1);
    FourLetters(t, p[0], p[2], p[1], p[3]);
  }

  /** A four-letter text is the display of its four letters. */
  lemma FourLetters(t: string, a: char, b: char, c: char, d: char)
    requires |t| == 4 && t[0] == a && t[1] == b && t[2] == c && t[3] == d
    ensures t == [a, b, c, d]
  {
  }

  /** Letter i * n + j of the transposed text is letter j * n + i of the text. */
  lemma TransposedAt(p: string, n: nat, i: nat, j: nat)
    requires n >= 1 && |p| == n * n && i < n && j < n
    ensures i * n + j < |p| && j * n + i < |p|
    ensures TransposedText(p, n)[i * n + j] == p[j * n + i]
  {
    RowEndBound(i, n, n);
    RowEndBound(j, n, n);
    ModUnique(i * n + j, n, i, j);
  }

  /** Every index below n * n is i * n + j for some i, j below n. */
  lemma SplitIndex(k: nat, n: nat) returns (i: nat, j: nat)
    requires n >= 1 && k < n * n
    ensures i < n && j < n && k == i * n + j
  {
    i, j := k / n, k % n;
    QuotientBelow(k, n);
  }

  /** Letter i * n + j of the column read-out is letter j * n + i of the text. */
  lemma IdentityLetterAt(p: string, n: nat, i: nat, j: nat)
    requires n >= 1 && AllLetters(p) && |p| == n * n && i < n && j < n
    ensures CeilDiv(|p|, n) == n && i * n + j < |p|
    ensures ReadColumns(TextMatrix(p, n), n, n)[i * n + j] == TransposedText(p, n)[i * n + j]
  {
    ModUnique(n * n, n, n, 0);
    CeilDivExact(n * n, n);
    TransposedAt(p, n, i, j);
    ReadColumnsAt(TextMatrix(p, n), n, n, i, j);
    TextMatrixLetters(p, n, j, i);
  }

  /** One letter of a text of n * n letters read out by columns. */
  lemma IdentityLetter(p: string, n: nat, k: nat)
    requires n >= 1 && AllLetters(p) && |p| == n * n && k < n * n
    ensures CeilDiv(|p|, n) == n
    ensures ReadColumns(TextMatrix(p, n), n, n)[k] == TransposedText(p, n)[k]
  {
    var i, j := SplitIndex(k, n);
    IdentityLetterAt(p, n, i, j);
  }

  // ---------------------------------------------------------------------------
  // The component (HillCipher.tsx:16-133)
  // ---------------------------------------------------------------------------

  /** The computation of `decrypt`, from the ciphertext field to the plaintext or the error line. */
  method DecryptCiphertext(ciphertext: string, key: Matrix, n: nat) returns (outcome: Outcome)
    requires ValidSize(n) && IsSquare(key, n)
    ensures outcome == DecryptText(ciphertext, key, n) && !outcome.Thrown?
  {
    var normalizedText := NormalizeText(ciphertext);
    if normalizedText == "" {
      return Message(InvalidText);
    }
    var inverse := InvertMatrix(key);
    if inverse.None? {
      return Message(NotInvertible);
    }
    if |normalizedText| % n != 0 {
      return Message(LengthError(n));
    }
    var w := |normalizedText| / n;
    ModUnique(|normalizedText|, n, w, 0);
    var result := DecryptBlocks(normalizedText, inverse.value, n, w);
    return Text(result);
  }

  /** The component's state: text areas, matrix size, key matrix and the error line. */
  class HillCipher {
    var plaintext: string
    var ciphertext: string
    var matrixSize: nat
    var keyMatrix: Matrix
    var error: string

    /** The size is one the selector offers and the key is a square of that size. */
    predicate Valid()
      reads this
    {
      ValidSize(matrixSize) && IsSquare(keyMatrix, matrixSize)
    }

    constructor ()
      ensures Valid()
      ensures plaintext == "" && ciphertext == "" && error == ""
      ensures matrixSize == 2 && keyMatrix == DefaultKey
    {
      plaintext, ciphertext, error := "", "", "";
      matrixSize := 2;
      keyMatrix := DefaultKey;
    }

    /** `handleMatrixChange` for one of the cells on screen. */
    method HandleMatrixChange(row: nat, col: nat, parsed: Option<int>)
      requires Valid() && row < matrixSize && col < matrixSize
      modifies this
      ensures Valid()
      ensures keyMatrix == old(keyMatrix)[row := old(keyMatrix)[row][col := ParsedOr(parsed, 0)]]
      ensures plaintext == old(plaintext) && ciphertext == old(ciphertext)
      ensures matrixSize == old(matrixSize) && error == old(error)
    {
      var numValue := ParsedOr(parsed, 0);
      keyMatrix := keyMatrix[row := keyMatrix[row][col := numValue]];
    }

    /** `handleSizeChange`: the new size, with the identity as its key. */
    method HandleSizeChange(size: nat)
      requires ValidSize(size)
      modifies this
      ensures Valid()
      ensures matrixSize == size && keyMatrix == Identity(size)
      ensures plaintext == old(plaintext) && ciphertext == old(ciphertext) && error == old(error)
    {
      matrixSize := size;
      var newMatrix: Matrix := [];
      var i := 0;
      while i < size
        invariant 0 <= i <= size
        invariant newMatrix == Identity(size)[..i]
      {
        var newRow: seq<int> := [];
        var j := 0;
        while j < size
          invariant 0 <= j <= size
          invariant newRow == Identity(size)[i][..j]
        {
          newRow := newRow + [if i == j then 1 else 0];
          j := j + 1;
        }
        assert newRow == Identity(size)[i];
        newMatrix := newMatrix + [newRow];
        i := i + 1;
      }
      keyMatrix := newMatrix;
    }

    /**
      `encrypt`: writes the ciphertext, or an error line, or (when
      `multiplyMatrices` throws) only clears the error line.
    */
    method Encrypt()
      requires Valid()
      modifies this
      ensures Valid()
      ensures plaintext == old(plaintext) && matrixSize == old(matrixSize) && keyMatrix == old(keyMatrix)
      ensures match EncryptText(old(plaintext), old(keyMatrix), old(matrixSize))
        case Text(c) => ciphertext == c && error == ""
        case Message(m) => ciphertext == old(ciphertext) && error == m
        case Thrown => ciphertext == old(ciphertext) && error == ""
    {
      error := "";
      var normalizedText := NormalizeText(plaintext);
      if normalizedText == "" {
        error := InvalidText;
        return;
      }
      var processedText := PadText(normalizedText, matrixSize);
      var textMatrix := StringToMatrix(processedText, matrixSize);
      if |textMatrix| < matrixSize {
        return;
      }
      var resultMatrix := MultiplyMatrices(keyMatrix, textMatrix);
      var result := ColumnsToText(resultMatrix, matrixSize, |resultMatrix[0]|);
      ciphertext := result;
    }

    /** `decrypt`: writes the plaintext or an error line. */
    method Decrypt()
      requires Valid()
      modifies this
      ensures Valid()
      ensures ciphertext == old(ciphertext) && matrixSize == old(matrixSize) && keyMatrix == old(keyMatrix)
      ensures match DecryptText(old(ciphertext), old(keyMatrix), old(matrixSize))
        case Text(p) => plaintext == p && error == ""
        case Message(m) => plaintext == old(plaintext) && error == m
        case Thrown => false
    {
      error := "";
      var outcome := DecryptCiphertext(ciphertext, keyMatrix, matrixSize);
      match outcome
      case Text(p) => plaintext := p;
      case Message(m) => error := m;
    }
  }
}
