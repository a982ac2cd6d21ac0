/**
  The standard Vigenere component (src/components/VigenereCipher.tsx): a
  repeating letter key added to (or subtracted from) the normalized text
  modulo 26.
*/
module Vigenere {
  import opened ModArith
  import opened Alphabet
  import opened Results

  /** Letter i of the ciphertext: (p_i + k_(i mod |k|)) % 26 (VigenereCipher.tsx:32-35). */
  function EncryptLetter(p: char, k: char): char
  {
    NumberToLetter(JsRem(LetterToNumber(p) + LetterToNumber(k), 26))
  }

  /** Letter i of the plaintext: (c_i - k_(i mod |k|) + 26) % 26 (VigenereCipher.tsx:58-61). */
  function DecryptLetter(c: char, k: char): char
  {
    NumberToLetter(JsRem(LetterToNumber(c) - LetterToNumber(k) + 26, 26))
  }

  /** The encryption loop over already normalized text and key. */
  function EncryptLetters(text: string, key: string): (r: string)
    requires |key| > 0
    ensures |r| == |text| && AllLetters(r)
  {
    seq(|text|, i requires 0 <= i < |text| => EncryptLetter(text[i], key[i % |key|]))
  }

  /** The decryption loop over already normalized text and key. */
  function DecryptLetters(text: string, key: string): (r: string)
    requires |key| > 0
    ensures |r| == |text| && AllLetters(r)
  {
    seq(|text|, i requires 0 <= i < |text| => DecryptLetter(text[i], key[i % |key|]))
  }

  const KeyMissing := "Please enter a key"
  const InvalidInput := "Please enter valid text and key"

  /** What `encrypt` (VigenereCipher.tsx:15-39) computes from the raw plaintext and key. */
  function EncryptText(plaintext: string, key: string): Result<string>
  {
    if key == "" then Err(KeyMissing)
    else
      var text, k := NormalizeText(plaintext), NormalizeText(key);
      if text == "" || k == "" then Err(InvalidInput)
      else Ok(EncryptLetters(text, k))
  }

  /** What `decrypt` (VigenereCipher.tsx:41-65) computes from the raw ciphertext and key. */
  function DecryptText(ciphertext: string, key: string): Result<string>
  {
    if key == "" then Err(KeyMissing)
    else
      var text, k := NormalizeText(ciphertext), NormalizeText(key);
      if text == "" || k == "" then Err(InvalidInput)
      else Ok(DecryptLetters(text, k))
  }

  /** Decrypting a letter with the key letter used to encrypt it gives it back. */
  lemma LetterRoundTrip(p: char, k: char)
    requires IsLetter(p) && IsLetter(k)
    ensures DecryptLetter(EncryptLetter(p, k), k) == p
  {
    var pn, kn := LetterToNumber(p), LetterToNumber(k);
    JsRemNonNegative(pn + kn, 26);
    var e := (pn + kn) % 26;
    var c := NumberToLetter(e);
    assert EncryptLetter(p, k) == c;
    ModUnique(e, 26, 0, e);
    assert LetterToNumber(c) == e;
    JsRemNonNegative(e - kn + 26, 26);
    ShiftBack(pn, kn);
    assert DecryptLetter(c, k) == NumberToLetter(pn);
    Alphabet.LetterRoundTrip(p);
  }

  /** Adding kn modulo 26 and then taking it away again (plus 26) modulo 26 gives pn back. */
  lemma ShiftBack(pn: int, kn: int)
    requires 0 <= pn < 26 && 0 <= kn < 26
    ensures ((pn + kn) % 26 - kn + 26) % 26 == pn
  {
    if pn + kn < 26 {
      ModUnique(pn + kn, 26, 0, pn + kn);
      ModUnique(pn + 26, 26, 1, pn);
    } else {
      ModUnique(pn + kn, 26, 1, pn + kn - 26);
      ModUnique(pn, 26, 0, pn);
    }
  }

  lemma LettersRoundTrip(text: string, key: string)
    requires AllLetters(text) && AllLetters(key) && |key| > 0
    ensures DecryptLetters(EncryptLetters(text, key), key) == text
  {
    var e := EncryptLetters(text, key);
    forall i | 0 <= i < |text|
      ensures DecryptLetters(e, key)[i] == text[i]
    {
      LetterRoundTrip(text[i], key[i % |key|]);
    }
  }

  /**
    Whenever encryption succeeds, decrypting its output with the same key gives
    the normalized plaintext.
  */
  lemma RoundTrip(plaintext: string, key: string)
    requires EncryptText(plaintext, key).Ok?
    ensures DecryptText(EncryptText(plaintext, key).value, key) == Ok(NormalizeText(plaintext))
  {
    var text, k := NormalizeText(plaintext), NormalizeText(key);
    var c := EncryptLetters(text, k);
    NormalizeLetters(c);
    LettersRoundTrip(text, k);
  }

  /** Encryption fails exactly when the key is blank or normalizes to nothing, or the text has no letters. */
  lemma EncryptFailures(plaintext: string, key: string)
    ensures EncryptText(plaintext, key).Err? <==>
      key == "" || NormalizeText(plaintext) == "" || NormalizeText(key) == ""
    ensures EncryptText(plaintext, key).Ok? ==>
      |EncryptText(plaintext, key).value| == |NormalizeText(plaintext)|
  {
  }

  /** The key restarts after whole key periods: a text that is a multiple of |key| long encrypts independently of what follows. */
  lemma EncryptAppend(a: string, b: string, key: string)
    requires |key| > 0 && |a| % |key| == 0
    ensures EncryptLetters(a + b, key) == EncryptLetters(a, key) + EncryptLetters(b, key)
  {
    var q := |a| / |key|;
    ModUnique(|a|, |key|, q, 0);
    forall i | |a| <= i < |a| + |b|
      ensures (a + b)[i] == b[i - |a|] && i % |key| == (i - |a|) % |key|
    {
      ModAddMultiple(i - |a|, |key|, q);
    }
  }

  // The example below, one key period at a time.
  lemma ExampleHel() ensures EncryptLetters("HEL", "KEY") == "RIJ" {}
  lemma ExampleLow() ensures EncryptLetters("LOW", "KEY") == "VSU" {}
  lemma ExampleOrl() ensures EncryptLetters("ORL", "KEY") == "YVJ" {}
  lemma ExampleD() ensures EncryptLetters("D", "KEY") == "N" {}

  lemma EncryptExample()
    ensures EncryptLetters("HELLOWORLD", "KEY") == "RIJVSUYVJN"
  {
    EncryptAppend("ORL", "D", "KEY");
    EncryptAppend("LOW", "ORLD", "KEY");
    EncryptAppend("HEL", "LOWORLD", "KEY");
    ExampleHel();
    ExampleLow();
    ExampleOrl();
    ExampleD();
    assert "ORL" + "D" == "ORLD" && "LOW" + "ORLD" == "LOWORLD" && "HEL" + "LOWORLD" == "HELLOWORLD";
    assert "RIJ" + ("VSU" + ("YVJ" + "N")) == "RIJVSUYVJN";
  }

  lemma DecryptExample()
    ensures DecryptLetters("RIJVSUYVJN", "KEY") == "HELLOWORLD"
  {
    EncryptExample();
    LettersRoundTrip("HELLOWORLD", "KEY");
  }

  /** The letter loop of `encrypt`: key letter i mod |k| is added to text letter i. */
  method EncryptLoop(text: string, k: string) returns (result: string)
    requires |k| > 0
    ensures result == EncryptLetters(text, k)
  {
    result := "";
    var i := 0;
    while i < |text|
      invariant 0 <= i <= |text|
      invariant result == EncryptLetters(text, k)[..i]
    {
      var textChar := LetterToNumber(text[i]);
      var keyChar := LetterToNumber(k[i % |k|]);
      assert NumberToLetter(JsRem(textChar + keyChar, 26)) == EncryptLetter(text[i], k[i % |k|]);
      result := result + [NumberToLetter(JsRem(textChar + keyChar, 26))];
      i := i + 1;
    }
  }

  /** The letter loop of `decrypt`: key letter i mod |k| is taken away from text letter i. */
  method DecryptLoop(text: string, k: string) returns (result: string)
    requires |k| > 0
    ensures result == DecryptLetters(text, k)
  {
    result := "";
    var i := 0;
    while i < |text|
      invariant 0 <= i <= |text|
      invariant result == DecryptLetters(text, k)[..i]
    {
      var textChar := LetterToNumber(text[i]);
      var keyChar := LetterToNumber(k[i % |k|]);
      assert NumberToLetter(JsRem(textChar - keyChar + 26, 26)) == DecryptLetter(text[i], k[i % |k|]);
      result := result + [NumberToLetter(JsRem(textChar - keyChar + 26, 26))];
      i := i + 1;
    }
  }

  /** The component's state: the two text areas, the key field and the error line. */
  class VigenereCipher {
    var plaintext: string
    var ciphertext: string
    var key: string
    var error: string

    constructor ()
      ensures plaintext == "" && ciphertext == "" && key == "" && error == ""
    {
      plaintext, ciphertext, key, error := "", "", "", "";
    }

    /** `encrypt`: writes either `ciphertext` or `error`, nothing else. */
    method Encrypt()
      modifies this
      ensures plaintext == old(plaintext) && key == old(key)
      ensures match EncryptText(old(plaintext), old(key))
        case Ok(c) => ciphertext == c && error == ""
        case Err(m) => ciphertext == old(ciphertext) && error == m
    {
      if key == "" {
        error := KeyMissing;
        return;
      }
      error := "";
      var text := NormalizeText(plaintext);
      var k := NormalizeText(key);
      if text == "" || k == "" {
        error := InvalidInput;
        return;
      }
      ciphertext := EncryptLoop(text, k);
    }

    /** `decrypt`: writes either `plaintext` or `error`, nothing else. */
    method Decrypt()
      modifies this
      ensures ciphertext == old(ciphertext) && key == old(key)
      ensures match DecryptText(old(ciphertext), old(key))
        case Ok(p) => plaintext == p && error == ""
        case Err(m) => plaintext == old(plaintext) && error == m
    {
      if key == "" {
        error := KeyMissing;
        return;
      }
      error := "";
      var text := NormalizeText(ciphertext);
      var k := NormalizeText(key);
      if text == "" || k == "" {
        error := InvalidInput;
        return;
      }
      plaintext := DecryptLoop(text, k);
    }
  }
}
