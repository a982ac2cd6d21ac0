/**
  The Playfair key square of src/utils/cipherUtils.ts: `generatePlayfairMatrix`
  fills a 5 x 5 grid with the key's distinct letters, then with the rest of
  the 25-letter alphabet (no 'J'); `findPositionInPlayfair` looks a letter up.
*/
module PlayfairSquare {
  import opened Alphabet
  import opened ModArith

  /** A grid of letters, row by row (`string[][]` with one-letter cells). */
  type Grid = seq<seq<char>>

  /** Five rows of five cells. */
  predicate IsGrid(g: Grid)
  {
    |g| == 5 && forall r :: 0 <= r < 5 ==> |g[r]| == 5
  }

  /** The letters a Playfair square holds: upper-case 'A'..'Z' except 'J'. */
  predicate InSquare(c: char)
  {
    IsLetter(c) && c != 'J'
  }

  /** The alphabet the square is completed with. */
  const Alphabet25 := "ABCDEFGHIKLMNOPQRSTUVWXYZ"

  /** Letter i of the alphabet: 'A' + i before 'J', 'A' + i + 1 from 'K' on. */
  lemma Alphabet25At(i: nat)
    requires i < 25
    ensures Alphabet25[i] == if i < 9 then (65 + i) as char else (66 + i) as char
  {
  }

  /** The alphabet holds exactly the square's letters, each once. */
  lemma Alphabet25Letters()
    ensures |Alphabet25| == 25 && Distinct(Alphabet25)
    ensures forall c :: c in Alphabet25 <==> InSquare(c)
  {
    forall i | 0 <= i < 25 ensures InSquare(Alphabet25[i]) {
      Alphabet25At(i);
    }
    forall i, j | 0 <= i < j < 25 ensures Alphabet25[i] != Alphabet25[j] {
      Alphabet25At(i);
      Alphabet25At(j);
    }
    forall c | InSquare(c) ensures c in Alphabet25 {
      var i := if c < 'J' then c as int - 65 else c as int - 66;
      Alphabet25At(i);
      assert Alphabet25[i] == c;
    }
  }

  /** No letter occurs twice. */
  predicate Distinct(s: seq<char>)
  {
    forall i, j :: 0 <= i < j < |s| ==> s[i] != s[j]
  }

  /** `.replace(/J/g, 'I')`. */
  function ReplaceJ(s: string): string
  {
    seq(|s|, i requires 0 <= i < |s| => if s[i] == 'J' then 'I' else s[i])
  }

  /** On letters, replacing 'J' gives letters of the square, and leaves a text without 'J' alone. */
  lemma ReplaceJFacts(s: string)
    ensures |ReplaceJ(s)| == |s|
    ensures AllLetters(s) ==> forall i :: 0 <= i < |s| ==> InSquare(ReplaceJ(s)[i])
    ensures (forall i :: 0 <= i < |s| ==> s[i] != 'J') ==> ReplaceJ(s) == s
  {
  }

  /**
    The key as the square reads it: upper-cased, 'J' replaced by 'I' and
    everything outside 'A'..'Z' dropped (replacing before or after dropping
    gives the same text, since 'J' and 'I' are both kept).
  */
  function KeyLetters(key: string): (r: string)
    ensures forall i :: 0 <= i < |r| ==> InSquare(r[i])
  {
    ReplaceJFacts(NormalizeText(key));
    ReplaceJ(NormalizeText(key))
  }

  /**
    The letters of s appended to placed in order, each one skipped when it is
    already there: the effect of the `usedChars` test on a fill loop.
  */
  function AddNew(placed: seq<char>, s: seq<char>): seq<char>
    decreases |s|
  {
    if s == [] then placed
    else
      var p := AddNew(placed, s[..|s| - 1]);
      if s[|s| - 1] in p then p else p + [s[|s| - 1]]
  }

  /** AddNew extends placed, holds the letters of both, and keeps them distinct. */
  lemma {:induction false} AddNewFacts(placed: seq<char>, s: seq<char>)
    ensures |placed| <= |AddNew(placed, s)| && AddNew(placed, s)[..|placed|] == placed
    ensures forall c :: c in AddNew(placed, s) <==> c in placed || c in s
    ensures Distinct(placed) ==> Distinct(AddNew(placed, s))
    decreases |s|
  {
    if s != [] {
      var init := s[..|s| - 1];
      AddNewFacts(placed, init);
      assert s == init + [s[|s| - 1]];
    }
  }

  /** Filling from a prefix of s gives a prefix of filling from all of s. */
  lemma {:induction false} AddNewPrefix(placed: seq<char>, s: seq<char>, i: nat)
    requires i <= |s|
    ensures |AddNew(placed, s[..i])| <= |AddNew(placed, s)|
    ensures AddNew(placed, s)[..|AddNew(placed, s[..i])|] == AddNew(placed, s[..i])
    decreases |s| - i
  {
    if i == |s| {
      assert s[..i] == s;
    } else {
      var init := s[..|s| - 1];
      assert init[..i] == s[..i];
      AddNewPrefix(placed, init, i);
    }
  }

  /** The letters of s that are not in d, in the order of s. */
  function FilterOut(s: seq<char>, d: seq<char>): seq<char>
    decreases |s|
  {
    if s == [] then []
    else FilterOut(s[..|s| - 1], d) + (if s[|s| - 1] in d then [] else [s[|s| - 1]])
  }

  /** When s has no repeated letter, AddNew appends exactly the letters of s missing from placed. */
  lemma {:induction false} AddNewDistinct(placed: seq<char>, s: seq<char>)
    requires Distinct(s)
    ensures AddNew(placed, s) == placed + FilterOut(s, placed)
    decreases |s|
  {
    if s != [] {
      var init := s[..|s| - 1];
      var x := s[|s| - 1];
      assert Distinct(init);
      AddNewDistinct(placed, init);
      AddNewFacts(placed, init);
      assert x !in init;
    }
  }

  /** A sequence without repeats has as many letters as its set. */
  lemma {:induction false} DistinctCard(s: seq<char>)
    requires Distinct(s)
    ensures |set c | c in s| == |s|
    decreases |s|
  {
    if s != [] {
      var init := s[..|s| - 1];
      var x := s[|s| - 1];
      assert Distinct(init);
      DistinctCard(init);
      assert (set c | c in s) == (set c | c in init) + {x};
      assert x !in init;
    }
  }

  /** The key's distinct letters in order of first occurrence. */
  function KeyPrefix(key: string): seq<char>
  {
    AddNew([], KeyLetters(key))
  }

  /** The 25 letters of the square in reading order. */
  function KeySquare(key: string): seq<char>
  {
    AddNew(KeyPrefix(key), Alphabet25)
  }

  /**
    The square holds each letter of the 25-letter alphabet exactly once ('J'
    never), starts with the key's distinct letters in order of first
    occurrence, and continues with the other letters alphabetically.
  */
  lemma KeySquareFacts(key: string)
    ensures |KeySquare(key)| == 25 && Distinct(KeySquare(key))
    ensures forall c :: c in KeySquare(key) <==> InSquare(c)
    ensures KeySquare(key) == KeyPrefix(key) + FilterOut(Alphabet25, KeyPrefix(key))
    ensures Distinct(KeyPrefix(key)) && forall c :: c in KeyPrefix(key) <==> c in KeyLetters(key)
  {
    var d := KeyPrefix(key);
    AddNewFacts([], KeyLetters(key));
    Alphabet25Letters();
    AddNewFacts(d, Alphabet25);
    AddNewDistinct(d, Alphabet25);
    var order := KeySquare(key);
    assert (set c | c in order) == (set c | c in Alphabet25);
    DistinctCard(order);
    DistinctCard(Alphabet25);
  }

  /** Cell j of g in reading order: row j / 5, column j % 5. */
  function Cell(g: Grid, j: nat): char
    requires IsGrid(g) && j < 25
  {
    g[j / 5][j % 5]
  }

  /** The 5 x 5 grid whose reading order is the given 25 letters. */
  function GridOf(order: seq<char>): (g: Grid)
    requires |order| == 25
    ensures IsGrid(g) && forall j :: 0 <= j < 25 ==> Cell(g, j) == order[j]
  {
    seq(5, r requires 0 <= r < 5 => seq(5, c requires 0 <= c < 5 => order[r * 5 + c]))
  }

  /** `generatePlayfairMatrix(key)` as a grid. */
  function KeyGrid(key: string): (g: Grid)
    ensures IsGrid(g)
  {
    KeySquareFacts(key);
    GridOf(KeySquare(key))
  }

  /** The grid while filling: the first |placed| cells hold placed, the rest are still blank. */
  function Partial(placed: seq<char>): (g: Grid)
    requires |placed| <= 25
    ensures IsGrid(g)
  {
    seq(5, r requires 0 <= r < 5 => seq(5, c requires 0 <= c < 5 =>
      if r * 5 + c < |placed| then placed[r * 5 + c] else ' '))
  }

  /** Writing the next letter at the cursor extends the filled part by that letter. */
  lemma PlaceNext(placed: seq<char>, ch: char, row: nat, col: nat)
    requires |placed| < 25 && col < 5 && row * 5 + col == |placed|
    ensures row < 5
    ensures Partial(placed + [ch]) == Partial(placed)[row := Partial(placed)[row][col := ch]]
  {
    var g := Partial(placed)[row := Partial(placed)[row][col := ch]];
    forall r | 0 <= r < 5 ensures Partial(placed + [ch])[r] == g[r] {
    }
  }

  /** A cell-by-cell fill of all 25 cells is the finished grid. */
  lemma PartialFull(order: seq<char>)
    requires |order| == 25
    ensures Partial(order) == GridOf(order)
  {
    forall r | 0 <= r < 5 ensures Partial(order)[r] == GridOf(order)[r] {
    }
  }

  /**
    One fill loop of `generatePlayfairMatrix`: each letter of s not yet used
    is written at the cursor, which then moves one cell on in reading order.
  */
  method Fill(matrix0: Grid, used0: set<char>, row0: nat, col0: nat, s: string, ghost placed0: seq<char>)
    returns (matrix: Grid, usedChars: set<char>, row: nat, col: nat, ghost placed: seq<char>)
    requires |placed0| <= 25 && |AddNew(placed0, s)| <= 25
    requires matrix0 == Partial(placed0) && (forall c :: c in used0 <==> c in placed0)
    requires row0 * 5 + col0 == |placed0| && col0 < 5
    ensures placed == AddNew(placed0, s) && |placed| <= 25 && matrix == Partial(placed)
    ensures forall c :: c in usedChars <==> c in placed
    ensures row * 5 + col == |placed| && col < 5
  {
    matrix, usedChars, row, col, placed := matrix0, used0, row0, col0, placed0;
    for i := 0 to |s|
      invariant placed == AddNew(placed0, s[..i])
      invariant |placed| <= 25 && matrix == Partial(placed)
      invariant forall c :: c in usedChars <==> c in placed
      invariant row * 5 + col == |placed| && col < 5
    {
      var ch := s[i];
      assert s[..i + 1] == s[..i] + [ch];
      AddNewPrefix(placed0, s, i + 1);
      if ch !in usedChars {
        PlaceNext(placed, ch, row, col);
        matrix := matrix[row := matrix[row][col := ch]];
        usedChars := usedChars + {ch};
        placed := placed + [ch];
        col := col + 1;
        if col == 5 {
          col := 0;
          row := row + 1;
        }
      }
    }
    assert s[..|s|] == s;
  }

  /**
    `generatePlayfairMatrix` (cipherUtils.ts:140-177): a blank 5 x 5 grid is
    filled with the key's letters, then the alphabet's; it never overflows.
  */
  method GeneratePlayfairMatrix(key: string) returns (matrix: Grid)
    ensures matrix == KeyGrid(key)
  {
    KeySquareFacts(key);
    var alphabet := Alphabet25;
    var usedChars: set<char> := {};
    matrix := seq(5, _ => seq(5, _ => ' '));
    forall r | 0 <= r < 5 ensures matrix[r] == Partial([])[r] {
    }
    var normKey := KeyLetters(key);
    AddNewFacts(KeyPrefix(key), Alphabet25);
    var row, col;
    ghost var placed;
    matrix, usedChars, row, col, placed := Fill(matrix, usedChars, 0, 0, normKey, []);
    matrix, usedChars, row, col, placed := Fill(matrix, usedChars, row, col, alphabet, placed);
    PartialFull(placed);
  }

  /** c is one of the grid's cells. */
  predicate InGrid(g: Grid, c: char)
    requires IsGrid(g)
  {
    exists j :: 0 <= j < 25 && Cell(g, j) == c
  }

  /** Every cell's letter is in the grid. */
  lemma CellInGrid(g: Grid, r: nat, c: nat)
    requires IsGrid(g) && r < 5 && c < 5
    ensures InGrid(g, g[r][c])
  {
    assert Cell(g, r * 5 + c) == g[r][c];
  }

  /** The reading-order scan of `findPositionInPlayfair`, from cell k on. */
  function Search(g: Grid, ch: char, k: nat): (pos: (nat, nat))
    requires IsGrid(g) && k <= 25
    ensures pos.0 < 5 && pos.1 < 5
    decreases 25 - k
  {
    if k == 25 then (0, 0)
    else if g[k / 5][k % 5] == ch then (k / 5, k % 5)
    else Search(g, ch, k + 1)
  }

  /**
    When cell j at or after k holds ch, the scan from k stops at the first
    such cell, which lies between k and j.
  */
  lemma {:induction false} SearchFound(g: Grid, ch: char, k: nat, j: nat)
    requires IsGrid(g) && k <= j < 25 && Cell(g, j) == ch
    ensures var pos := Search(g, ch, k);
            k <= pos.0 * 5 + pos.1 <= j && Cell(g, pos.0 * 5 + pos.1) == ch
            && forall i :: k <= i < pos.0 * 5 + pos.1 ==> Cell(g, i) != ch
    decreases j - k
  {
    var row, col := k / 5, k % 5;
    assert row * 5 + col == k;
    if g[row][col] != ch {
      assert j != k;
      SearchFound(g, ch, k + 1, j);
    }
  }

  /** When no cell at or after k holds ch, the scan falls back to (0, 0). */
  lemma {:induction false} SearchMissing(g: Grid, ch: char, k: nat)
    requires IsGrid(g) && k <= 25
    requires forall j :: k <= j < 25 ==> Cell(g, j) != ch
    ensures Search(g, ch, k) == (0, 0)
    decreases 25 - k
  {
    if k < 25 {
      assert Cell(g, k) != ch;
      SearchMissing(g, ch, k + 1);
    }
  }

  /** What `findPositionInPlayfair` returns: a row and a column of the grid. */
  function PositionOf(g: Grid, ch: char): (pos: (nat, nat))
    requires IsGrid(g)
    ensures pos.0 < 5 && pos.1 < 5
  {
    Search(g, ch, 0)
  }

  /**
    The position found is the first cell, in reading order, holding ch, and
    (0, 0) when no cell does.
  */
  lemma PositionOfFacts(g: Grid, ch: char)
    requires IsGrid(g)
    ensures var pos := PositionOf(g, ch);
            (exists j :: 0 <= j < 25 && Cell(g, j) == ch) ==>
              Cell(g, pos.0 * 5 + pos.1) == ch && forall j :: 0 <= j < pos.0 * 5 + pos.1 ==> Cell(g, j) != ch
    ensures (forall j :: 0 <= j < 25 ==> Cell(g, j) != ch) ==> PositionOf(g, ch) == (0, 0)
  {
    if j :| 0 <= j < 25 && Cell(g, j) == ch {
      SearchFound(g, ch, 0, j);
    } else {
      SearchMissing(g, ch, 0);
    }
  }

  /** In a grid of distinct letters, letter j is found at row j / 5, column j % 5. */
  lemma PositionInSquare(order: seq<char>, j: nat)
    requires |order| == 25 && Distinct(order) && j < 25
    ensures PositionOf(GridOf(order), order[j]) == (j / 5, j % 5)
  {
    PositionInGrid(GridOf(order), order, j);
  }

  /** The same for any grid that reads out as the distinct letters of `order`. */
  lemma PositionInGrid(g: Grid, order: seq<char>, j: nat)
    requires IsGrid(g) && |order| == 25 && Distinct(order) && j < 25
    requires forall i :: 0 <= i < 25 ==> Cell(g, i) == order[i]
    ensures PositionOf(g, order[j]) == (j / 5, j % 5)
  {
    var pos := PositionOf(g, order[j]);
    assert Cell(g, j) == order[j];
    PositionOfFacts(g, order[j]);
    var k := pos.0 * 5 + pos.1;
    DistinctAt(order, k, j);
    ModUnique(j, 5, pos.0, pos.1);
  }

  /** Distinct letters: equal letters sit at the same place. */
  lemma DistinctAt(s: seq<char>, i: nat, j: nat)
    requires Distinct(s) && i < |s| && j < |s| && s[i] == s[j]
    ensures i == j
  {
  }

  /** One step of the scan at cell (row, col). */
  lemma SearchAt(g: Grid, ch: char, row: nat, col: nat)
    requires IsGrid(g) && row < 5 && col < 5
    ensures Search(g, ch, row * 5 + col) ==
      if g[row][col] == ch then (row, col) else Search(g, ch, row * 5 + col + 1)
  {
    ModUnique(row * 5 + col, 5, row, col);
  }

  /** `findPositionInPlayfair` (cipherUtils.ts:180-189): a row-major scan with an early return. */
  method FindPositionInPlayfair(matrix: Grid, ch: char) returns (pos: (nat, nat))
    requires IsGrid(matrix)
    ensures pos == PositionOf(matrix, ch)
  {
    for row := 0 to 5
      invariant Search(matrix, ch, row * 5) == Search(matrix, ch, 0)
    {
      for col := 0 to 5
        invariant Search(matrix, ch, row * 5 + col) == Search(matrix, ch, 0)
      {
        SearchAt(matrix, ch, row, col);
        if matrix[row][col] == ch {
          return (row, col);
        }
      }
    }
    return (0, 0);
  }
}
