/**
  The Affine component (src/components/AffineCipher.tsx): E(x) = (a*x + b) mod 26
  on the normalized text, D(y) = a^-1 * (y - b) mod 26 with a^-1 from the
  linear-search `modInverse`.
*/
module Affine {
  import opened ModArith
  import opened Alphabet
  import opened Results

  /** `validateA`: a is accepted when `gcd(a, 26) === 1`. */
  predicate ValidA(a: int)
  {
    Gcd(a, 26) == 1
  }

  /** For a >= 0 the accepted values are those whose residue mod 26 is odd and not 13. */
  lemma ValidAResidues(a: int)
    requires a >= 0
    ensures ValidA(a) <==> a % 26 % 2 == 1 && a % 26 != 13
  {
    CoprimeIff26(a);
  }

  const InvalidA := "The value of A must be coprime with 26 (values: 1, 3, 5, 7, 9, 11, 15, 17, 19, 21, 23, 25)"
  const InvalidText := "Please enter valid text"

  /** One letter of the ciphertext: `numberToLetter(mod(a * x + b, 26))`. */
  function EncryptLetter(p: char, a: int, b: int): char
  {
    NumberToLetter(Mod(a * LetterToNumber(p) + b, 26))
  }

  /** One letter of the plaintext: `numberToLetter(mod(aInverse * (y - b), 26))`. */
  function DecryptLetter(c: char, aInverse: int, b: int): char
  {
    NumberToLetter(Mod(aInverse * (LetterToNumber(c) - b), 26))
  }

  function EncryptLetters(text: string, a: int, b: int): (r: string)
    ensures |r| == |text| && AllLetters(r)
  {
    seq(|text|, i requires 0 <= i < |text| => EncryptLetter(text[i], a, b))
  }

  function DecryptLetters(text: string, aInverse: int, b: int): (r: string)
    ensures |r| == |text| && AllLetters(r)
  {
    seq(|text|, i requires 0 <= i < |text| => DecryptLetter(text[i], aInverse, b))
  }

  /** What `encrypt` (AffineCipher.tsx:21-44) computes. */
  function EncryptText(plaintext: string, a: int, b: int): Result<string>
  {
    if !ValidA(a) then Err(InvalidA)
    else
      var text := NormalizeText(plaintext);
      if text == "" then Err(InvalidText)
      else Ok(EncryptLetters(text, a, b))
  }

  /** What `decrypt` (AffineCipher.tsx:46-71) computes. */
  function DecryptText(ciphertext: string, a: int, b: int): Result<string>
  {
    if !ValidA(a) then Err(InvalidA)
    else
      var text := NormalizeText(ciphertext);
      if text == "" then Err(InvalidText)
      else Ok(DecryptLetters(text, ModInverseOf(a, 26), b))
  }

  /** The arithmetic behind decryption: a^-1 * (((a*x + b) mod 26) - b) is x again modulo 26. */
  lemma AffineInverts(x: int, a: int, aInverse: int, b: int)
    requires 0 <= x < 26 && (aInverse * a) % 26 == 1
    ensures (aInverse * ((a * x + b) % 26 - b)) % 26 == x
  {
    var ax := a * x;
    var q := (ax + b) / 26;
    var d := (ax + b) % 26 - b;
    assert d == ax + 26 * (-q);
    ModAddMultiple(ax, 26, -q);
    ModMulCongruent(d, ax, aInverse, 26);
    assert aInverse * ax == (aInverse * a) * x;
    MulResidue(aInverse * a, x, 26);
  }

  /** With any inverse of a modulo 26, decryption undoes encryption of a letter. */
  lemma LetterRoundTrip(p: char, a: int, aInverse: int, b: int)
    requires IsLetter(p) && (aInverse * a) % 26 == 1
    ensures DecryptLetter(EncryptLetter(p, a, b), aInverse, b) == p
  {
    var x := LetterToNumber(p);
    var c := EncryptLetter(p, a, b);
    EncryptedNumber(p, a, b);
    AffineInverts(x, a, aInverse, b);
    DecryptedLetter(c, (a * x + b) % 26, x, aInverse, b);
    Alphabet.LetterRoundTrip(p);
  }

  /** The number of an encrypted letter is (a * x + b) mod 26. */
  lemma EncryptedNumber(p: char, a: int, b: int)
    ensures LetterToNumber(EncryptLetter(p, a, b)) == (a * LetterToNumber(p) + b) % 26
  {
    var e := Mod(a * LetterToNumber(p) + b, 26);
    NumberRoundTrip(e);
  }

  /** A letter with number e decrypts to the letter of (aInverse * (e - b)) mod 26. */
  lemma DecryptedLetter(c: char, e: int, x: int, aInverse: int, b: int)
    requires LetterToNumber(c) == e && (aInverse * (e - b)) % 26 == x
    ensures DecryptLetter(c, aInverse, b) == NumberToLetter(x)
  {
    SameResidueSameLetter(Mod(aInverse * (e - b), 26), x);
  }

  lemma LettersRoundTrip(text: string, a: int, aInverse: int, b: int)
    requires AllLetters(text) && (aInverse * a) % 26 == 1
    ensures DecryptLetters(EncryptLetters(text, a, b), aInverse, b) == text
  {
    var e := EncryptLetters(text, a, b);
    forall i | 0 <= i < |text|
      ensures DecryptLetters(e, aInverse, b)[i] == text[i]
    {
      LetterRoundTrip(text[i], a, aInverse, b);
    }
  }

  /**
    For every accepted a >= 0 and every b, decryption gives back the normalized
    plaintext (for a >= 0, `modInverse(a, 26)` finds a true inverse).
  */
  lemma RoundTrip(plaintext: string, a: int, b: int)
    requires EncryptText(plaintext, a, b).Ok? && a >= 0
    ensures DecryptText(EncryptText(plaintext, a, b).value, a, b) == Ok(NormalizeText(plaintext))
  {
    var text := NormalizeText(plaintext);
    var c := EncryptLetters(text, a, b);
    NormalizeLetters(c);
    CoprimeInverse26(a);
    LettersRoundTrip(text, a, ModInverseOf(a, 26), b);
  }

  /** Encryption is refused exactly for a rejected a or a text without letters. */
  lemma EncryptFailures(plaintext: string, a: int, b: int)
    ensures EncryptText(plaintext, a, b) == Err(InvalidA) <==> !ValidA(a)
    ensures EncryptText(plaintext, a, b) == Err(InvalidText) <==> ValidA(a) && NormalizeText(plaintext) == ""
  {
  }

  lemma EncryptExample()
    ensures EncryptLetter('F', 5, 8) == 'H'
  {
    assert Mod(33, 26) == 7;
  }

  /** 21 is the inverse of 5 modulo 26. */
  lemma DecryptExample()
    ensures DecryptLetter('H', 21, 8) == 'F'
  {
    EncryptExample();
    LetterRoundTrip('F', 5, 21, 8);
  }

  /** With a = 3 and b = 5, "A" encrypts to "F"... */
  lemma SmallKeyEncrypt()
    ensures EncryptLetter('A', 3, 5) == 'F'
  {
    assert LetterToNumber('A') == 0;
    assert Mod(5, 26) == 5;
  }

  /** ...and with the inverse 9 of 3, "F" decrypts to "A". */
  lemma SmallKeyDecrypt()
    ensures (9 * 3) % 26 == 1 && DecryptLetter('F', 9, 5) == 'A'
  {
    assert LetterToNumber('F') == 5;
    assert Mod(0, 26) == 0;
  }

  // ---------------------------------------------------------------------------
  // A negative a can pass the gcd test while `modInverse` finds nothing
  // ---------------------------------------------------------------------------

  /**
    a = -7 passes `validateA` (the truncating `%` makes gcd(-7, 26) come out as
    1), but `modInverse(-7, 26)` falls back to 1, so "B" encrypts to "T" and
    decrypts to "T".
  */
  lemma NegativeAExample()
    ensures ValidA(-7)
    ensures ModInverseOf(-7, 26) == 1
    ensures EncryptLetter('B', -7, 0) == 'T'
    ensures DecryptLetter('T', ModInverseOf(-7, 26), 0) == 'T'
  {
    NegativeNoInverse(-7, 26);
    assert Gcd(-7, 26) == 1;
    assert Mod(-7, 26) == 19;
    assert Mod(19, 26) == 19;
  }

  /** `decrypt` with the inverse taken of a's residue, as the cipher's formula intends. */
  function DecryptTextFixed(ciphertext: string, a: int, b: int): Result<string>
  {
    if !ValidA(a) then Err(InvalidA)
    else
      var text := NormalizeText(ciphertext);
      if text == "" then Err(InvalidText)
      else Ok(DecryptLetters(text, ModInverseOf(Mod(a, 26), 26), b))
  }

  /** With the residue's inverse, every accepted a, negative or not, decrypts correctly. */
  lemma RoundTripFixed(plaintext: string, a: int, b: int)
    requires EncryptText(plaintext, a, b).Ok?
    ensures DecryptTextFixed(EncryptText(plaintext, a, b).value, a, b) == Ok(NormalizeText(plaintext))
  {
    var text := NormalizeText(plaintext);
    var c := EncryptLetters(text, a, b);
    NormalizeLetters(c);
    var inv := ResidueInverse(a);
    LettersRoundTrip(text, a, inv, b);
  }

  /** For an accepted a, the search run on a's residue finds a true inverse of a. */
  lemma ResidueInverse(a: int) returns (inv: int)
    requires ValidA(a)
    ensures inv == ModInverseOf(Mod(a, 26), 26) && (inv * a) % 26 == 1
  {
    var r := Mod(a, 26);
    ResidueCoprime(a);
    CoprimeInverse26(r);
    inv := ModInverseOf(r, 26);
    InverseOfResidue(a, r, inv);
  }

  /** The residue of an accepted a is itself coprime to 26. */
  lemma ResidueCoprime(a: int)
    requires Gcd(a, 26) == 1
    ensures Gcd(Mod(a, 26), 26) == 1
  {
    var r := Mod(a, 26);
    CoprimeResidue26(a);
    ModUnique(r, 26, 0, r);
    CoprimeIff26(r);
  }

  /** An inverse of a's residue is an inverse of a. */
  lemma InverseOfResidue(a: int, r: int, inv: int)
    requires r == a % 26 && (r * inv) % 26 == 1
    ensures (inv * a) % 26 == 1
  {
    MulResidue(a, inv, 26);
    assert inv * a == a * inv;
  }

  /** The letter loop of `encrypt`, one `mod(a * x + b, 26)` per letter. */
  method EncryptLoop(text: string, a: int, b: int) returns (result: string)
    ensures result == EncryptLetters(text, a, b)
  {
    result := "";
    var i := 0;
    while i < |text|
      invariant 0 <= i <= |text|
      invariant result == EncryptLetters(text, a, b)[..i]
    {
      var textChar := LetterToNumber(text[i]);
      var encryptedChar := Mod(a * textChar + b, 26);
      assert NumberToLetter(encryptedChar) == EncryptLetter(text[i], a, b);
      result := result + [NumberToLetter(encryptedChar)];
      i := i + 1;
    }
  }

  /** The letter loop of `decrypt`, one `mod(aInverse * (y - b), 26)` per letter. */
  method DecryptLoop(text: string, aInverse: int, b: int) returns (result: string)
    ensures result == DecryptLetters(text, aInverse, b)
  {
    result := "";
    var i := 0;
    while i < |text|
      invariant 0 <= i <= |text|
      invariant result == DecryptLetters(text, aInverse, b)[..i]
    {
      var textChar := LetterToNumber(text[i]);
      var decryptedChar := Mod(aInverse * (textChar - b), 26);
      assert NumberToLetter(decryptedChar) == DecryptLetter(text[i], aInverse, b);
      result := result + [NumberToLetter(decryptedChar)];
      i := i + 1;
    }
  }

  /** The component's state: the text areas, the two key numbers and the error line. */
  class AffineCipher {
    var plaintext: string
    var ciphertext: string
    var a: int
    var b: int
    var error: string

    constructor ()
      ensures plaintext == "" && ciphertext == "" && error == ""
      ensures a == 1 && b == 0
    {
      plaintext, ciphertext, error := "", "", "";
      a, b := 1, 0;
    }

    method SetA(parsed: Option<int>)
      modifies this
      ensures a == ParsedOr(parsed, 1)
      ensures plaintext == old(plaintext) && ciphertext == old(ciphertext)
      ensures b == old(b) && error == old(error)
    {
      a := ParsedOr(parsed, 1);
    }

    method SetB(parsed: Option<int>)
      modifies this
      ensures b == ParsedOr(parsed, 0)
      ensures plaintext == old(plaintext) && ciphertext == old(ciphertext)
      ensures a == old(a) && error == old(error)
    {
      b := ParsedOr(parsed, 0);
    }

    /** `encrypt`: writes either `ciphertext` or `error`, nothing else. */
    method Encrypt()
      modifies this
      ensures plaintext == old(plaintext) && a == old(a) && b == old(b)
      ensures match EncryptText(old(plaintext), old(a), old(b))
        case Ok(c) => ciphertext == c && error == ""
        case Err(m) => ciphertext == old(ciphertext) && error == m
    {
      if !ValidA(a) {
        error := InvalidA;
        return;
      }
      error := "";
      var normalizedText := NormalizeText(plaintext);
      if normalizedText == "" {
        error := InvalidText;
        return;
      }
      ciphertext := EncryptLoop(normalizedText, a, b);
    }

    /** `decrypt`: writes either `plaintext` or `error`, nothing else. */
    method Decrypt()
      modifies this
      ensures ciphertext == old(ciphertext) && a == old(a) && b == old(b)
      ensures match DecryptText(old(ciphertext), old(a), old(b))
        case Ok(p) => plaintext == p && error == ""
        case Err(m) => plaintext == old(plaintext) && error == m
    {
      if !ValidA(a) {
        error := InvalidA;
        return;
      }
      error := "";
      var normalizedText := NormalizeText(ciphertext);
      if normalizedText == "" {
        error := InvalidText;
        return;
      }
      var aInverse := ModInverse(a, 26);
      plaintext := DecryptLoop(normalizedText, aInverse, b);
    }
  }
}
