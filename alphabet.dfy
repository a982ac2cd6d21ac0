/**
  The letter codec of src/utils/cipherUtils.ts: `letterToNumber`,
  `numberToLetter` and `normalizeText` (A = 0, ..., Z = 25).
*/
module Alphabet {
  import opened ModArith

  /** An upper-case Latin letter, 'A'..'Z'. */
  predicate IsLetter(c: char) { 'A' <= c <= 'Z' }

  /** Text made of upper-case Latin letters only. */
  predicate AllLetters(s: string) { forall i :: 0 <= i < |s| ==> IsLetter(s[i]) }

  /** `toUpperCase` on one character (ASCII case mapping only). */
  function ToUpper(c: char): char
  {
    if 'a' <= c <= 'z' then (c as int - 32) as char else c
  }

  /** `letterToNumber` (cipherUtils.ts:23-25): upper-case, then subtract the code of 'A'. */
  function LetterToNumber(c: char): (n: int)
    ensures IsLetter(ToUpper(c)) <==> 0 <= n < 26
  {
    ToUpper(c) as int - 65
  }

  /** `numberToLetter` (cipherUtils.ts:28-30): reduce mod 26, then add the code of 'A'. */
  function NumberToLetter(n: int): (c: char)
    ensures IsLetter(c)
    ensures LetterToNumber(c) == Mod(n, 26)
  {
    (Mod(n, 26) + 65) as char
  }

  /** `numberToLetter` sees only the residue modulo 26. */
  lemma SameResidueSameLetter(a: int, b: int)
    requires a % 26 == b % 26
    ensures NumberToLetter(a) == NumberToLetter(b)
  {
  }

  /** A number already in 0..25 comes back unchanged from its letter. */
  lemma NumberRoundTrip(n: int)
    requires 0 <= n < 26
    ensures LetterToNumber(NumberToLetter(n)) == n
  {
  }

  /** A letter, upper- or lower-case, survives the round trip through its index. */
  lemma LetterRoundTrip(c: char)
    requires IsLetter(ToUpper(c))
    ensures NumberToLetter(LetterToNumber(c)) == ToUpper(c)
  {
  }

  /** Two texts that agree letter by letter are equal. */
  lemma SameText(s: string, t: string)
    requires |s| == |t| && forall k :: 0 <= k < |s| ==> s[k] == t[k]
    ensures s == t
  {
  }

  lemma CodecExamples()
    ensures LetterToNumber('b') == 1
    ensures NumberToLetter(27) == 'B'
    ensures NumberToLetter(-1) == 'Z'
  {
    assert Mod(27, 26) == 1;
    assert Mod(-1, 26) == 25;
  }

  /**
    `normalizeText` (cipherUtils.ts:118-120): upper-case the text and drop every
    character outside 'A'..'Z', keeping the order of the rest.
  */
  function NormalizeText(s: string): (r: string)
    ensures AllLetters(r)
    ensures |r| <= |s|
  {
    if s == [] then []
    else
      var u := ToUpper(s[0]);
      (if IsLetter(u) then [u] else []) + NormalizeText(s[1..])
  }

  /** Normalizing text that is already letters changes nothing. */
  lemma {:induction false} NormalizeLetters(s: string)
    requires AllLetters(s)
    ensures NormalizeText(s) == s
  {
    if s != [] {
      NormalizeLetters(s[1..]);
    }
  }

  /** Normalizing twice is the same as normalizing once. */
  lemma NormalizeIdempotent(s: string)
    ensures NormalizeText(NormalizeText(s)) == NormalizeText(s)
  {
    NormalizeLetters(NormalizeText(s));
  }

  /** Normalization distributes over concatenation (it works character by character). */
  lemma {:induction false} NormalizeAppend(s: string, t: string)
    ensures NormalizeText(s + t) == NormalizeText(s) + NormalizeText(t)
  {
    if s != [] {
      assert (s + t)[1..] == s[1..] + t;
      NormalizeAppend(s[1..], t);
    } else {
      assert s + t == t;
    }
  }
}
