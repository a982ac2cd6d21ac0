/**
  The Playfair component (src/components/PlayfairCipher.tsx): the plaintext
  is prepared into digraphs, and each digraph is replaced by letters of the
  key square using the same-row, same-column and rectangle rules.
*/
module Playfair {
  import opened Alphabet
  import opened Results
  import opened PlayfairSquare
  import opened ModArith

  const KeyMissing := "Please enter a key"
  const InvalidInput := "Please enter valid text and key"
  const InvalidCiphertext := "Please enter valid ciphertext with even length"

  // ---------------------------------------------------------------------------
  // preparePlaintext (PlayfairCipher.tsx:24-43)
  // ---------------------------------------------------------------------------

  /** Letter i of n, followed by an 'X' when the next letter is the same. */
  function Chunk(n: string, i: nat): string
    requires i < |n|
  {
    [n[i]] + (if i + 1 < |n| && n[i] == n[i + 1] then "X" else "")
  }

  /** The first k letters of n, each with its separating 'X' where one is due. */
  function Separated(n: string, k: nat): string
    requires k <= |n|
  {
    if k == 0 then "" else Separated(n, k - 1) + Chunk(n, k - 1)
  }

  /** Two equal neighbours in s are always a pair of 'X's. */
  predicate OnlyXDoubled(s: string)
  {
    forall i :: 0 <= i < |s| - 1 && s[i] == s[i + 1] ==> s[i] == 'X'
  }

  /** Letters of the square only. */
  predicate SquareText(s: string)
  {
    forall i :: 0 <= i < |s| ==> InSquare(s[i])
  }

  /**
    The separated text keeps the square's alphabet, grows by at least the
    letters taken, ends in 'X' or in the last letter taken with no double
    after it, and leaves no doubled letter other than 'X' side by side.
  */
  lemma {:induction false} SeparatedFacts(n: string, k: nat)
    requires k <= |n|
    ensures var r := Separated(n, k);
            && k <= |r|
            && (SquareText(n) ==> SquareText(r))
            && OnlyXDoubled(r)
            && (k > 0 ==> r[|r| - 1] == 'X' || (r[|r| - 1] == n[k - 1] && (k == |n| || n[k - 1] != n[k])))
  {
    if k > 0 {
      SeparatedFacts(n, k - 1);
      var p := Separated(n, k - 1);
      var r := Separated(n, k);
      assert r == p + Chunk(n, k - 1);
      forall i | 0 <= i < |r| - 1 && r[i] == r[i + 1] ensures r[i] == 'X' {
        if i < |p| - 1 {
          assert r[i] == p[i] && r[i + 1] == p[i + 1];
        } else if i == |p| - 1 {
          assert r[i + 1] == n[k - 1];
        }
      }
    }
  }

  /**
    What `preparePlaintext` returns: the normalized text with 'J' read as 'I',
    an 'X' after every letter equal to the next one, and a final 'X' when the
    length is odd.
  */
  function Prepared(text: string): string
  {
    var n := ReplaceJ(NormalizeText(text));
    var d := Separated(n, |n|);
    if |d| % 2 != 0 then d + "X" else d
  }

  /**
    The prepared text has even length, uses the square's letters only, is
    empty exactly when the text has no letter, and never puts two equal
    letters other than 'X' side by side.
  */
  lemma PreparedFacts(text: string)
    ensures |Prepared(text)| % 2 == 0 && SquareText(Prepared(text)) && OnlyXDoubled(Prepared(text))
    ensures Prepared(text) == "" <==> NormalizeText(text) == ""
  {
    PreparedShape(text);
    PreparedEmpty(text);
  }

  /** Even length, the square's letters only, no double other than 'X'. */
  lemma PreparedShape(text: string)
    ensures |Prepared(text)| % 2 == 0 && SquareText(Prepared(text)) && OnlyXDoubled(Prepared(text))
  {
    var n := ReplaceJ(NormalizeText(text));
    ReplaceJFacts(NormalizeText(text));
    SeparatedFacts(n, |n|);
    PaddedShape(Separated(n, |n|));
  }

  /** The final padding step yields an even text and keeps the other two facts. */
  lemma PaddedShape(d: string)
    requires SquareText(d) && OnlyXDoubled(d)
    ensures var p := if |d| % 2 != 0 then d + "X" else d;
            |p| % 2 == 0 && SquareText(p) && OnlyXDoubled(p)
  {
    if |d| % 2 != 0 {
      PaddingFacts(d);
    }
  }

  /** Empty exactly when the text has no letter. */
  lemma PreparedEmpty(text: string)
    ensures Prepared(text) == "" <==> NormalizeText(text) == ""
  {
    var n := ReplaceJ(NormalizeText(text));
    ReplaceJFacts(NormalizeText(text));
    SeparatedFacts(n, |n|);
    var d := Separated(n, |n|);
    assert |n| == 0 ==> d == "";
  }

  /** Appending the padding 'X' keeps the square's letters and adds no double. */
  lemma PaddingFacts(d: string)
    requires SquareText(d) && OnlyXDoubled(d)
    ensures SquareText(d + "X") && OnlyXDoubled(d + "X")
  {
    var r := d + "X";
    forall i | 0 <= i < |r| - 1 && r[i] == r[i + 1] ensures r[i] == 'X' {
      if i < |d| - 1 {
        assert r[i] == d[i] && r[i + 1] == d[i + 1];
      }
    }
  }

  /** `preparePlaintext`: the separating loop, then the odd-length padding. */
  method PreparePlaintext(text: string) returns (prepared: string)
    ensures prepared == Prepared(text)
  {
    var normalized := ReplaceJ(NormalizeText(text));
    prepared := "";
    for i := 0 to |normalized|
      invariant prepared == Separated(normalized, i)
    {
      prepared := prepared + [normalized[i]];
      if i < |normalized| - 1 && normalized[i] == normalized[i + 1] {
        prepared := prepared + "X";
      }
    }
    if |prepared| % 2 != 0 {
      prepared := prepared + "X";
    }
  }

  // ---------------------------------------------------------------------------
  // The digraph rules (PlayfairCipher.tsx:62-88 and 110-136)
  // ---------------------------------------------------------------------------

  /**
    One encryption step on the letters a, b: same row, shift right; same
    column, shift down; otherwise swap the columns.  Columns and rows stay in
    0..4, so the `%` here is JavaScript's as well.
  */
  function EncryptPair(g: Grid, a: char, b: char): (char, char)
    requires IsGrid(g)
  {
    var p1 := PositionOf(g, a);
    var p2 := PositionOf(g, b);
    var row1: int, col1: int, row2: int, col2: int := p1.0, p1.1, p2.0, p2.1;
    if row1 == row2 then
      (g[row1][(col1 + 1) % 5], g[row2][(col2 + 1) % 5])
    else if col1 == col2 then
      (g[(row1 + 1) % 5][col1], g[(row2 + 1) % 5][col2])
    else
      (g[row1][col2], g[row2][col1])
  }

  /** One decryption step: shift left, shift up, or swap the columns. */
  function DecryptPair(g: Grid, a: char, b: char): (char, char)
    requires IsGrid(g)
  {
    var p1 := PositionOf(g, a);
    var p2 := PositionOf(g, b);
    var row1: int, col1: int, row2: int, col2: int := p1.0, p1.1, p2.0, p2.1;
    if row1 == row2 then
      (g[row1][(col1 - 1 + 5) % 5], g[row2][(col2 - 1 + 5) % 5])
    else if col1 == col2 then
      (g[(row1 - 1 + 5) % 5][col1], g[(row2 - 1 + 5) % 5][col2])
    else
      (g[row1][col2], g[row2][col1])
  }

  /** The encryption loop: every digraph of t in turn; the output is as long as t and made of grid letters. */
  function EncryptDigraphs(g: Grid, t: string): (r: string)
    requires IsGrid(g) && |t| % 2 == 0
    ensures |r| == |t|
    decreases |t|
  {
    if t == [] then []
    else
      var e := EncryptPair(g, t[|t| - 2], t[|t| - 1]);
      EncryptDigraphs(g, t[..|t| - 2]) + [e.0, e.1]
  }

  /** The decryption loop. */
  function DecryptDigraphs(g: Grid, t: string): (r: string)
    requires IsGrid(g) && |t| % 2 == 0
    ensures |r| == |t|
    decreases |t|
  {
    if t == [] then []
    else
      var d := DecryptPair(g, t[|t| - 2], t[|t| - 1]);
      DecryptDigraphs(g, t[..|t| - 2]) + [d.0, d.1]
  }

  /** Each encryption step appends the images of the next digraph. */
  lemma EncryptDigraphsStep(g: Grid, t: string, i: nat, a: char, b: char)
    requires IsGrid(g) && i % 2 == 0 && i + 2 <= |t|
    requires (a, b) == EncryptPair(g, t[i], t[i + 1])
    ensures EncryptDigraphs(g, t[..i + 2]) == EncryptDigraphs(g, t[..i]) + [a, b]
  {
    var done := t[..i + 2];
    assert done[..i] == t[..i] && done[i] == t[i] && done[i + 1] == t[i + 1];
  }

  /** Each decryption step appends the images of the next digraph. */
  lemma DecryptDigraphsStep(g: Grid, t: string, i: nat, a: char, b: char)
    requires IsGrid(g) && i % 2 == 0 && i + 2 <= |t|
    requires (a, b) == DecryptPair(g, t[i], t[i + 1])
    ensures DecryptDigraphs(g, t[..i + 2]) == DecryptDigraphs(g, t[..i]) + [a, b]
  {
    var done := t[..i + 2];
    assert done[..i] == t[..i] && done[i] == t[i] && done[i + 1] == t[i + 1];
  }

  /** Both letters of an encrypted or decrypted digraph are grid letters. */
  lemma PairInGrid(g: Grid, a: char, b: char)
    requires IsGrid(g)
    ensures InGrid(g, EncryptPair(g, a, b).0) && InGrid(g, EncryptPair(g, a, b).1)
    ensures InGrid(g, DecryptPair(g, a, b).0) && InGrid(g, DecryptPair(g, a, b).1)
  {
    var p1 := PositionOf(g, a);
    var p2 := PositionOf(g, b);
    var row1: int, col1: int, row2: int, col2: int := p1.0, p1.1, p2.0, p2.1;
    CellInGrid(g, row1, (col1 + 1) % 5);
    CellInGrid(g, row2, (col2 + 1) % 5);
    CellInGrid(g, (row1 + 1) % 5, col1);
    CellInGrid(g, (row2 + 1) % 5, col2);
    CellInGrid(g, row1, (col1 - 1 + 5) % 5);
    CellInGrid(g, row2, (col2 - 1 + 5) % 5);
    CellInGrid(g, (row1 - 1 + 5) % 5, col1);
    CellInGrid(g, (row2 - 1 + 5) % 5, col2);
    CellInGrid(g, row1, col2);
    CellInGrid(g, row2, col1);
  }

  /** The encryption of an even-length text is made of grid letters only. */
  lemma {:induction false} EncryptedInGrid(g: Grid, t: string)
    requires IsGrid(g) && |t| % 2 == 0
    ensures forall i :: 0 <= i < |t| ==> InGrid(g, EncryptDigraphs(g, t)[i])
    decreases |t|
  {
    if t != [] {
      EncryptedInGrid(g, t[..|t| - 2]);
      PairInGrid(g, t[|t| - 2], t[|t| - 1]);
    }
  }

  /** EncryptPair in terms of the two positions found. */
  lemma EncryptRule(g: Grid, a: char, b: char, r1: nat, c1: nat, r2: nat, c2: nat)
    requires IsGrid(g) && PositionOf(g, a) == (r1, c1) && PositionOf(g, b) == (r2, c2)
    ensures r1 == r2 ==> EncryptPair(g, a, b) == (g[r1][(c1 + 1) % 5], g[r2][(c2 + 1) % 5])
    ensures r1 != r2 && c1 == c2 ==> EncryptPair(g, a, b) == (g[(r1 + 1) % 5][c1], g[(r2 + 1) % 5][c2])
    ensures r1 != r2 && c1 != c2 ==> EncryptPair(g, a, b) == (g[r1][c2], g[r2][c1])
  {
  }

  /** DecryptPair in terms of the two positions found. */
  lemma DecryptRule(g: Grid, a: char, b: char, r1: nat, c1: nat, r2: nat, c2: nat)
    requires IsGrid(g) && PositionOf(g, a) == (r1, c1) && PositionOf(g, b) == (r2, c2)
    ensures r1 == r2 ==> DecryptPair(g, a, b) == (g[r1][(c1 - 1 + 5) % 5], g[r2][(c2 - 1 + 5) % 5])
    ensures r1 != r2 && c1 == c2 ==> DecryptPair(g, a, b) == (g[(r1 - 1 + 5) % 5][c1], g[(r2 - 1 + 5) % 5][c2])
    ensures r1 != r2 && c1 != c2 ==> DecryptPair(g, a, b) == (g[r1][c2], g[r2][c1])
  {
  }

  /** Every cell's letter is found, by the reading-order scan, at that very cell. */
  predicate Positioned(g: Grid)
    requires IsGrid(g)
  {
    forall r: nat, c: nat :: r < 5 && c < 5 ==> PositionOf(g, g[r][c]) == (r, c)
  }

  /** A square of 25 distinct letters gives a grid where every letter is found at its own cell. */
  lemma SquarePositioned(order: seq<char>)
    requires |order| == 25 && Distinct(order)
    ensures Positioned(GridOf(order))
  {
    var g := GridOf(order);
    forall r: nat, c: nat | r < 5 && c < 5
      ensures PositionOf(g, g[r][c]) == (r, c)
    {
      ModUnique(r * 5 + c, 5, r, c);
      PositionInSquare(order, r * 5 + c);
    }
  }

  /** Moving one step forward and one step back around a row or column of five. */
  lemma Shift(c: int)
    requires 0 <= c < 5
    ensures 0 <= (c + 1) % 5 < 5 && 0 <= (c - 1 + 5) % 5 < 5
    ensures ((c + 1) % 5 - 1 + 5) % 5 == c && ((c - 1 + 5) % 5 + 1) % 5 == c
  {
  }

  /** A letter of the grid has a row and a column. */
  lemma Locate(g: Grid, a: char) returns (r: nat, c: nat)
    requires IsGrid(g) && InGrid(g, a)
    ensures r < 5 && c < 5 && g[r][c] == a
  {
    var j :| 0 <= j < 25 && Cell(g, j) == a;
    r, c := j / 5, j % 5;
  }

  /** A digraph in one row (two equal letters included): decryption shifts back along the row. */
  lemma RowRoundTrip(g: Grid, r: nat, c1: nat, c2: nat)
    requires IsGrid(g) && Positioned(g) && r < 5 && c1 < 5 && c2 < 5
    ensures var e := EncryptPair(g, g[r][c1], g[r][c2]);
            DecryptPair(g, e.0, e.1) == (g[r][c1], g[r][c2])
  {
    Shift(c1);
    Shift(c2);
    var n1, n2 := (c1 + 1) % 5, (c2 + 1) % 5;
    EncryptRule(g, g[r][c1], g[r][c2], r, c1, r, c2);
    DecryptRule(g, g[r][n1], g[r][n2], r, n1, r, n2);
  }

  /** And encryption shifts forward again after decryption. */
  lemma RowRoundTripInverse(g: Grid, r: nat, c1: nat, c2: nat)
    requires IsGrid(g) && Positioned(g) && r < 5 && c1 < 5 && c2 < 5
    ensures var d := DecryptPair(g, g[r][c1], g[r][c2]);
            EncryptPair(g, d.0, d.1) == (g[r][c1], g[r][c2])
  {
    Shift(c1);
    Shift(c2);
    var p1, p2 := (c1 - 1 + 5) % 5, (c2 - 1 + 5) % 5;
    DecryptRule(g, g[r][c1], g[r][c2], r, c1, r, c2);
    EncryptRule(g, g[r][p1], g[r][p2], r, p1, r, p2);
  }

  /** A digraph in one column and two rows: decryption shifts back along the column. */
  lemma ColumnRoundTrip(g: Grid, r1: nat, r2: nat, c: nat)
    requires IsGrid(g) && Positioned(g) && r1 < 5 && r2 < 5 && c < 5 && r1 != r2
    ensures var e := EncryptPair(g, g[r1][c], g[r2][c]);
            DecryptPair(g, e.0, e.1) == (g[r1][c], g[r2][c])
  {
    Shift(r1);
    Shift(r2);
    var n1, n2 := (r1 + 1) % 5, (r2 + 1) % 5;
    assert n1 != n2;
    assert PositionOf(g, g[r1][c]) == (r1, c) && PositionOf(g, g[r2][c]) == (r2, c);
    EncryptRule(g, g[r1][c], g[r2][c], r1, c, r2, c);
    assert PositionOf(g, g[n1][c]) == (n1, c) && PositionOf(g, g[n2][c]) == (n2, c);
    DecryptRule(g, g[n1][c], g[n2][c], n1, c, n2, c);
  }

  /** And encryption shifts forward again after decryption. */
  lemma ColumnRoundTripInverse(g: Grid, r1: nat, r2: nat, c: nat)
    requires IsGrid(g) && Positioned(g) && r1 < 5 && r2 < 5 && c < 5 && r1 != r2
    ensures var d := DecryptPair(g, g[r1][c], g[r2][c]);
            EncryptPair(g, d.0, d.1) == (g[r1][c], g[r2][c])
  {
    Shift(r1);
    Shift(r2);
    var p1, p2 := (r1 - 1 + 5) % 5, (r2 - 1 + 5) % 5;
    assert p1 != p2;
    assert PositionOf(g, g[r1][c]) == (r1, c) && PositionOf(g, g[r2][c]) == (r2, c);
    DecryptRule(g, g[r1][c], g[r2][c], r1, c, r2, c);
    assert PositionOf(g, g[p1][c]) == (p1, c) && PositionOf(g, g[p2][c]) == (p2, c);
    EncryptRule(g, g[p1][c], g[p2][c], p1, c, p2, c);
  }

  /** A digraph on two rows and two columns: both steps swap the columns. */
  lemma RectangleRoundTrip(g: Grid, r1: nat, c1: nat, r2: nat, c2: nat)
    requires IsGrid(g) && Positioned(g) && r1 < 5 && c1 < 5 && r2 < 5 && c2 < 5
    requires r1 != r2 && c1 != c2
    ensures var e := EncryptPair(g, g[r1][c1], g[r2][c2]);
            DecryptPair(g, e.0, e.1) == (g[r1][c1], g[r2][c2])
    ensures var d := DecryptPair(g, g[r1][c1], g[r2][c2]);
            EncryptPair(g, d.0, d.1) == (g[r1][c1], g[r2][c2])
  {
    EncryptRule(g, g[r1][c1], g[r2][c2], r1, c1, r2, c2);
    DecryptRule(g, g[r1][c1], g[r2][c2], r1, c1, r2, c2);
    EncryptRule(g, g[r1][c2], g[r2][c1], r1, c2, r2, c1);
    DecryptRule(g, g[r1][c2], g[r2][c1], r1, c2, r2, c1);
  }

  /**
    In a grid where every letter is found at its own cell, decrypting an
    encrypted digraph gives it back.
  */
  lemma PairRoundTrip(g: Grid, a: char, b: char)
    requires IsGrid(g) && Positioned(g) && InGrid(g, a) && InGrid(g, b)
    ensures var e := EncryptPair(g, a, b);
            DecryptPair(g, e.0, e.1) == (a, b)
  {
    var r1, c1 := Locate(g, a);
    var r2, c2 := Locate(g, b);
    if r1 == r2 {
      RowRoundTrip(g, r1, c1, c2);
    } else if c1 == c2 {
      ColumnRoundTrip(g, r1, r2, c1);
    } else {
      RectangleRoundTrip(g, r1, c1, r2, c2);
    }
  }

  /** And encrypting a digraph undoes decrypting it. */
  lemma PairRoundTripInverse(g: Grid, a: char, b: char)
    requires IsGrid(g) && Positioned(g) && InGrid(g, a) && InGrid(g, b)
    ensures var d := DecryptPair(g, a, b);
            EncryptPair(g, d.0, d.1) == (a, b)
  {
    var r1, c1 := Locate(g, a);
    var r2, c2 := Locate(g, b);
    if r1 == r2 {
      RowRoundTripInverse(g, r1, c1, c2);
    } else if c1 == c2 {
      ColumnRoundTripInverse(g, r1, r2, c1);
    } else {
      RectangleRoundTrip(g, r1, c1, r2, c2);
    }
  }

  /** Every letter of t is a letter of the grid. */
  predicate AllInGrid(g: Grid, t: string)
    requires IsGrid(g)
  {
    forall i :: 0 <= i < |t| ==> InGrid(g, t[i])
  }

  /** The grid of order holds exactly the letters of order. */
  lemma GridLetters(order: seq<char>, c: char)
    requires |order| == 25
    ensures InGrid(GridOf(order), c) <==> c in order
  {
    var g := GridOf(order);
    if c in order {
      var j :| 0 <= j < 25 && order[j] == c;
      assert Cell(g, j) == c;
    }
  }

  /** Encrypting one more digraph appends its two letters. */
  lemma EncryptAppend(g: Grid, u: string, x: char, y: char)
    requires IsGrid(g) && |u| % 2 == 0
    ensures var e := EncryptPair(g, x, y);
            EncryptDigraphs(g, u + [x, y]) == EncryptDigraphs(g, u) + [e.0, e.1]
  {
    var w := u + [x, y];
    assert w[..|w| - 2] == u;
  }

  /** Decrypting one more digraph appends its two letters. */
  lemma DecryptAppend(g: Grid, u: string, x: char, y: char)
    requires IsGrid(g) && |u| % 2 == 0
    ensures var d := DecryptPair(g, x, y);
            DecryptDigraphs(g, u + [x, y]) == DecryptDigraphs(g, u) + [d.0, d.1]
  {
    var w := u + [x, y];
    assert w[..|w| - 2] == u;
  }

  /**
    In a grid where every letter is found at its own cell, decryption undoes
    encryption on every even-length text of the grid's letters.
  */
  lemma {:induction false} DigraphsRoundTrip(g: Grid, t: string)
    requires IsGrid(g) && Positioned(g) && |t| % 2 == 0 && AllInGrid(g, t)
    ensures DecryptDigraphs(g, EncryptDigraphs(g, t)) == t
    decreases |t|
  {
    if t != [] {
      var init, a, b := t[..|t| - 2], t[|t| - 2], t[|t| - 1];
      assert t == init + [a, b];
      assert AllInGrid(g, init);
      DigraphsRoundTrip(g, init);
      PairRoundTrip(g, a, b);
      var p := EncryptPair(g, a, b);
      EncryptAppend(g, init, a, b);
      DecryptAppend(g, EncryptDigraphs(g, init), p.0, p.1);
    }
  }

  /** And encryption undoes decryption on every such text. */
  lemma {:induction false} DigraphsRoundTripInverse(g: Grid, t: string)
    requires IsGrid(g) && Positioned(g) && |t| % 2 == 0 && AllInGrid(g, t)
    ensures EncryptDigraphs(g, DecryptDigraphs(g, t)) == t
    decreases |t|
  {
    if t != [] {
      var init, a, b := t[..|t| - 2], t[|t| - 2], t[|t| - 1];
      assert t == init + [a, b];
      assert AllInGrid(g, init);
      DigraphsRoundTripInverse(g, init);
      PairRoundTripInverse(g, a, b);
      var p := DecryptPair(g, a, b);
      DecryptAppend(g, init, a, b);
      EncryptAppend(g, DecryptDigraphs(g, init), p.0, p.1);
    }
  }

  // ---------------------------------------------------------------------------
  // encrypt and decrypt (PlayfairCipher.tsx:45-139)
  // ---------------------------------------------------------------------------

  /** The matrix the key effect keeps: the key's square, or no rows for an empty key. */
  function CachedMatrix(key: string): (m: Grid)
    ensures m == [] || IsGrid(m)
  {
    if key != "" then KeyGrid(key) else []
  }

  /** What `encrypt` computes from the plaintext, the key and the cached matrix. */
  function EncryptText(plaintext: string, key: string, matrix: Grid): Result<string>
    requires matrix == [] || IsGrid(matrix)
  {
    if key == "" then Err(KeyMissing)
    else
      var preparedText := Prepared(plaintext);
      PreparedFacts(plaintext);
      if preparedText == "" || |matrix| == 0 then Err(InvalidInput)
      else Ok(EncryptDigraphs(matrix, preparedText))
  }

  /** What `decrypt` computes: 'J' is read as 'I' before the lookup. */
  function DecryptText(ciphertext: string, key: string, matrix: Grid): Result<string>
    requires matrix == [] || IsGrid(matrix)
  {
    if key == "" then Err(KeyMissing)
    else
      var normalizedText := ReplaceJ(NormalizeText(ciphertext));
      if normalizedText == "" || |normalizedText| % 2 != 0 || |matrix| == 0 then Err(InvalidCiphertext)
      else Ok(DecryptDigraphs(matrix, normalizedText))
  }

  /** Encryption fails exactly on an empty key or a text without letters. */
  lemma EncryptFailures(plaintext: string, key: string)
    ensures EncryptText(plaintext, key, CachedMatrix(key)) == Err(KeyMissing) <==> key == ""
    ensures (EncryptText(plaintext, key, CachedMatrix(key)) == Err(InvalidInput))
              <==> key != "" && NormalizeText(plaintext) == ""
  {
    PreparedFacts(plaintext);
  }

  /**
    Decryption fails exactly on an empty key, or a ciphertext whose letters
    are none or odd in number.
  */
  lemma DecryptFailures(ciphertext: string, key: string)
    ensures DecryptText(ciphertext, key, CachedMatrix(key)) == Err(KeyMissing) <==> key == ""
    ensures (DecryptText(ciphertext, key, CachedMatrix(key)) == Err(InvalidCiphertext))
              <==> key != "" && (NormalizeText(ciphertext) == "" || |NormalizeText(ciphertext)| % 2 != 0)
  {
    ReplaceJFacts(NormalizeText(ciphertext));
  }

  /** Every letter decryption looks up is in the key's square, so the (0, 0) fallback is never taken. */
  lemma DecryptLettersInSquare(ciphertext: string, key: string)
    ensures AllInGrid(KeyGrid(key), ReplaceJ(NormalizeText(ciphertext)))
  {
    var t := ReplaceJ(NormalizeText(ciphertext));
    ReplaceJFacts(NormalizeText(ciphertext));
    KeySquareFacts(key);
    forall i | 0 <= i < |t| ensures InGrid(KeyGrid(key), t[i]) {
      GridLetters(KeySquare(key), t[i]);
    }
  }

  /**
    A successful encryption yields as many letters as the prepared text, all
    of them letters of the square (so none is 'J').
  */
  lemma CiphertextInSquare(plaintext: string, key: string)
    requires EncryptText(plaintext, key, CachedMatrix(key)).Ok?
    ensures var c := EncryptText(plaintext, key, CachedMatrix(key)).value;
            |c| == |Prepared(plaintext)| && forall i :: 0 <= i < |c| ==> InSquare(c[i])
  {
    KeySquareFacts(key);
    var order := KeySquare(key);
    var g := GridOf(order);
    PreparedFacts(plaintext);
    var c := EncryptDigraphs(g, Prepared(plaintext));
    EncryptedInGrid(g, Prepared(plaintext));
    forall i | 0 <= i < |c| ensures InSquare(c[i]) {
      GridLetters(order, c[i]);
    }
  }

  /**
    With the key's square, decrypting the ciphertext gives back the prepared
    plaintext: the normalized text with 'J' read as 'I' and its 'X's inserted.
  */
  lemma RoundTrip(plaintext: string, key: string)
    requires EncryptText(plaintext, key, CachedMatrix(key)).Ok?
    ensures DecryptText(EncryptText(plaintext, key, CachedMatrix(key)).value, key, CachedMatrix(key))
              == Ok(Prepared(plaintext))
  {
    KeySquareFacts(key);
    var order := KeySquare(key);
    var g := GridOf(order);
    SquarePositioned(order);
    PreparedFacts(plaintext);
    var p := Prepared(plaintext);
    forall i | 0 <= i < |p| ensures InGrid(g, p[i]) {
      GridLetters(order, p[i]);
    }
    DigraphsRoundTrip(g, p);
    CiphertextReadsBack(plaintext, key);
  }

  /** The ciphertext comes back unchanged from decryption's normalization and 'J' replacement. */
  lemma CiphertextReadsBack(plaintext: string, key: string)
    requires EncryptText(plaintext, key, CachedMatrix(key)).Ok?
    ensures var c := EncryptText(plaintext, key, CachedMatrix(key)).value;
            ReplaceJ(NormalizeText(c)) == c && |c| == |Prepared(plaintext)|
  {
    var c := EncryptText(plaintext, key, CachedMatrix(key)).value;
    CiphertextInSquare(plaintext, key);
    NormalizeLetters(c);
    ReplaceJFacts(c);
  }

  /** The pair loop of `encrypt`, looking both letters up with `findPositionInPlayfair`. */
  method EncryptLoop(matrix: Grid, preparedText: string) returns (result: string)
    requires IsGrid(matrix) && |preparedText| % 2 == 0
    ensures result == EncryptDigraphs(matrix, preparedText)
  {
    result := "";
    var i := 0;
    while i < |preparedText|
      invariant 0 <= i <= |preparedText| && i % 2 == 0
      invariant result == EncryptDigraphs(matrix, preparedText[..i])
    {
      var char1 := preparedText[i];
      var char2 := preparedText[i + 1];
      var pos1 := FindPositionInPlayfair(matrix, char1);
      var pos2 := FindPositionInPlayfair(matrix, char2);
      var row1: int, col1: int, row2: int, col2: int := pos1.0, pos1.1, pos2.0, pos2.1;
      var newChar1, newChar2;
      if row1 == row2 {
        newChar1 := matrix[row1][(col1 + 1) % 5];
        newChar2 := matrix[row2][(col2 + 1) % 5];
      } else if col1 == col2 {
        newChar1 := matrix[(row1 + 1) % 5][col1];
        newChar2 := matrix[(row2 + 1) % 5][col2];
      } else {
        newChar1 := matrix[row1][col2];
        newChar2 := matrix[row2][col1];
      }
      assert (newChar1, newChar2) == EncryptPair(matrix, char1, char2);
      EncryptDigraphsStep(matrix, preparedText, i, newChar1, newChar2);
      result := result + [newChar1, newChar2];
      i := i + 2;
    }
    assert preparedText[..i] == preparedText;
  }

  /** The pair loop of `decrypt`. */
  method DecryptLoop(matrix: Grid, normalizedText: string) returns (result: string)
    requires IsGrid(matrix) && |normalizedText| % 2 == 0
    ensures result == DecryptDigraphs(matrix, normalizedText)
  {
    result := "";
    var i := 0;
    while i < |normalizedText|
      invariant 0 <= i <= |normalizedText| && i % 2 == 0
      invariant result == DecryptDigraphs(matrix, normalizedText[..i])
    {
      var char1 := normalizedText[i];
      var char2 := normalizedText[i + 1];
      var pos1 := FindPositionInPlayfair(matrix, char1);
      var pos2 := FindPositionInPlayfair(matrix, char2);
      var row1: int, col1: int, row2: int, col2: int := pos1.0, pos1.1, pos2.0, pos2.1;
      var newChar1, newChar2;
      if row1 == row2 {
        newChar1 := matrix[row1][(col1 - 1 + 5) % 5];
        newChar2 := matrix[row2][(col2 - 1 + 5) % 5];
      } else if col1 == col2 {
        newChar1 := matrix[(row1 - 1 + 5) % 5][col1];
        newChar2 := matrix[(row2 - 1 + 5) % 5][col2];
      } else {
        newChar1 := matrix[row1][col2];
        newChar2 := matrix[row2][col1];
      }
      assert (newChar1, newChar2) == DecryptPair(matrix, char1, char2);
      DecryptDigraphsStep(matrix, normalizedText, i, newChar1, newChar2);
      result := result + [newChar1, newChar2];
      i := i + 2;
    }
    assert normalizedText[..i] == normalizedText;
  }

  // ---------------------------------------------------------------------------
  // The component's state
  // ---------------------------------------------------------------------------

  /** The component: text areas, key, cached key matrix and the error line. */
  class PlayfairCipher {
    var plaintext: string
    var ciphertext: string
    var key: string
    var matrix: Grid
    var error: string

    /** The matrix is the one the key effect builds for the current key. */
    predicate Valid()
      reads this
    {
      matrix == CachedMatrix(key)
    }

    constructor ()
      ensures Valid()
      ensures plaintext == "" && ciphertext == "" && key == "" && error == "" && matrix == []
    {
      plaintext, ciphertext, key, error := "", "", "", "";
      matrix := [];
    }

    /** The key field changed, and the effect on `[key]` rebuilt the matrix. */
    method SetKey(newKey: string)
      modifies this
      ensures Valid()
      ensures key == newKey && matrix == CachedMatrix(newKey)
      ensures plaintext == old(plaintext) && ciphertext == old(ciphertext) && error == old(error)
    {
      key := newKey;
      if key != "" {
        matrix := GeneratePlayfairMatrix(key);
      } else {
        matrix := [];
      }
    }

    /** `encrypt`: writes either `ciphertext` or `error`. */
    method Encrypt()
      requires Valid()
      modifies this
      ensures Valid()
      ensures plaintext == old(plaintext) && key == old(key) && matrix == old(matrix)
      ensures match EncryptText(old(plaintext), old(key), old(matrix))
        case Ok(c) => ciphertext == c && error == ""
        case Err(m) => ciphertext == old(ciphertext) && error == m
    {
      if key == "" {
        error := KeyMissing;
        return;
      }
      error := "";
      var preparedText := PreparePlaintext(plaintext);
      PreparedFacts(plaintext);
      if preparedText == "" || |matrix| == 0 {
        error := InvalidInput;
        return;
      }
      var result := EncryptLoop(matrix, preparedText);
      ciphertext := result;
    }

    /** `decrypt`: writes either `plaintext` or `error`. */
    method Decrypt()
      requires Valid()
      modifies this
      ensures Valid()
      ensures ciphertext == old(ciphertext) && key == old(key) && matrix == old(matrix)
      ensures match DecryptText(old(ciphertext), old(key), old(matrix))
        case Ok(p) => plaintext == p && error == ""
        case Err(m) => plaintext == old(plaintext) && error == m
    {
      if key == "" {
        error := KeyMissing;
        return;
      }
      error := "";
      var normalizedText := ReplaceJ(NormalizeText(ciphertext));
      if normalizedText == "" || |normalizedText| % 2 != 0 || |matrix| == 0 {
        error := InvalidCiphertext;
        return;
      }
      var result := DecryptLoop(matrix, normalizedText);
      plaintext := result;
    }
  }
}
