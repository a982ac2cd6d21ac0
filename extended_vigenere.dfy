/**
  The extended Vigenere component (src/components/ExtendedVigenere.tsx): every
  character of the raw text is shifted by the code of the matching key
  character modulo 256.  A `char` is a Unicode scalar value; it agrees with
  the UTF-16 code unit `charCodeAt` reads for every code below 0x10000
  outside the surrogate range, and in particular for the byte texts the
  properties below are about.
*/
module ExtendedVigenere {
  import opened ModArith
  import opened Results

  /** Every character of s has a code below 256 (the range the cipher works on). */
  predicate ByteText(s: string)
  {
    forall i :: 0 <= i < |s| ==> s[i] as int < 256
  }

  /**
    `String.fromCharCode` for the values the cipher produces: the argument is
    taken modulo 2^16, so a negative remainder becomes a code near 0xFFFF.
  */
  function FromCharCode(x: int): (c: char)
    requires -256 < x < 256
    ensures c as int == x % 0x1_0000
  {
    if x < 0 then
      ModUnique(x, 0x1_0000, -1, x + 0x1_0000);
      (x + 0x1_0000) as char
    else x as char
  }

  /** One step of the encryption loop: `(textChar + keyChar) % 256`. */
  function EncryptChar(p: char, k: char): (c: char)
    ensures c as int == (p as int + k as int) % 256
  {
    JsRemNonNegative(p as int + k as int, 256);
    FromCharCode(JsRem(p as int + k as int, 256))
  }

  /** One step of the decryption loop: `(textChar - keyChar + 256) % 256`. */
  function DecryptChar(c: char, k: char): (p: char)
    ensures k as int <= 256 ==> p as int == (c as int - k as int) % 256
  {
    var d := c as int - k as int + 256;
    if d >= 0 then
      JsRemNonNegative(d, 256);
      ModAddMultiple(c as int - k as int, 256, 1);
      FromCharCode(JsRem(d, 256))
    else
      FromCharCode(JsRem(d, 256))
  }

  /** The encryption loop over the whole text, key repeated. */
  function EncryptChars(text: string, key: string): (r: string)
    requires |key| > 0
    ensures |r| == |text| && ByteText(r)
  {
    seq(|text|, i requires 0 <= i < |text| => EncryptChar(text[i], key[i % |key|]))
  }

  /** The decryption loop over the whole text, key repeated. */
  function DecryptChars(text: string, key: string): (r: string)
    requires |key| > 0
    ensures |r| == |text|
    ensures ByteText(key) ==> ByteText(r)
  {
    seq(|text|, i requires 0 <= i < |text| => DecryptChar(text[i], key[i % |key|]))
  }

  const KeyMissing := "Please enter a key"
  const InvalidInput := "Please enter valid text and key"

  /** What `encrypt` (ExtendedVigenere.tsx:14-37) computes: the raw text, no normalization. */
  function EncryptText(plaintext: string, key: string): Result<string>
  {
    if key == "" then Err(KeyMissing)
    else if plaintext == "" then Err(InvalidInput)
    else Ok(EncryptChars(plaintext, key))
  }

  /** What `decrypt` (ExtendedVigenere.tsx:39-62) computes. */
  function DecryptText(ciphertext: string, key: string): Result<string>
  {
    if key == "" then Err(KeyMissing)
    else if ciphertext == "" then Err(InvalidInput)
    else Ok(DecryptChars(ciphertext, key))
  }

  lemma CharRoundTrip(p: char, k: char)
    requires p as int < 256 && k as int < 256
    ensures DecryptChar(EncryptChar(p, k), k) == p
  {
    var e := EncryptChar(p, k) as int;
    var q := (p as int + k as int) / 256;
    assert e == p as int + k as int - 256 * q;
    ModUnique(e - k as int, 256, -q, p as int);
  }

  lemma CharRoundTripInverse(c: char, k: char)
    requires c as int < 256 && k as int < 256
    ensures EncryptChar(DecryptChar(c, k), k) == c
  {
    var d := DecryptChar(c, k) as int;
    var q := (c as int - k as int) / 256;
    assert d == c as int - k as int - 256 * q;
    ModUnique(d + k as int, 256, -q, c as int);
  }

  /**
    With a key of codes below 256, decryption undoes encryption on every text of
    codes below 256.
  */
  lemma RoundTrip(plaintext: string, key: string)
    requires EncryptText(plaintext, key).Ok?
    requires ByteText(plaintext) && ByteText(key)
    ensures DecryptText(EncryptText(plaintext, key).value, key) == Ok(plaintext)
  {
    var e := EncryptChars(plaintext, key);
    forall i | 0 <= i < |plaintext|
      ensures DecryptChars(e, key)[i] == plaintext[i]
    {
      CharRoundTrip(plaintext[i], key[i % |key|]);
    }
    assert DecryptChars(e, key) == plaintext;
  }

  /** And encryption undoes decryption on every ciphertext of codes below 256. */
  lemma RoundTripInverse(ciphertext: string, key: string)
    requires DecryptText(ciphertext, key).Ok?
    requires ByteText(ciphertext) && ByteText(key)
    ensures EncryptText(DecryptText(ciphertext, key).value, key) == Ok(ciphertext)
  {
    var d := DecryptChars(ciphertext, key);
    forall i | 0 <= i < |ciphertext|
      ensures EncryptChars(d, key)[i] == ciphertext[i]
    {
      CharRoundTripInverse(ciphertext[i], key[i % |key|]);
    }
    assert EncryptChars(d, key) == ciphertext;
  }

  /**
    A plaintext character with a code of 256 or more never comes back: with a
    key of codes below 256, every decrypted character has a code below 256.
  */
  lemma WideCharacterLost(plaintext: string, key: string, i: nat)
    requires EncryptText(plaintext, key).Ok? && ByteText(key)
    requires i < |plaintext| && plaintext[i] as int >= 256
    ensures DecryptText(EncryptText(plaintext, key).value, key) != Ok(plaintext)
  {
    var d := DecryptChars(EncryptChars(plaintext, key), key);
    assert d[i] as int < 256;
  }

  /** A key character above 256 can push the decryption remainder below zero. */
  lemma WideKeyExample()
    ensures EncryptChar('A', 600 as char) == 153 as char
    ensures DecryptChar(153 as char, 600 as char) == 65345 as char
  {
  }

  /** The component's state: the two text areas, the key field and the error line. */
  class ExtendedVigenereCipher {
    var plaintext: string
    var ciphertext: string
    var key: string
    var error: string

    constructor ()
      ensures plaintext == "" && ciphertext == "" && key == "" && error == ""
    {
      plaintext, ciphertext, key, error := "", "", "", "";
    }

    /** `encrypt`: writes either `ciphertext` or `error`, nothing else. */
    method Encrypt()
      modifies this
      ensures plaintext == old(plaintext) && key == old(key)
      ensures match EncryptText(old(plaintext), old(key))
        case Ok(c) => ciphertext == c && error == ""
        case Err(m) => ciphertext == old(ciphertext) && error == m
    {
      if key == "" {
        error := KeyMissing;
        return;
      }
      error := "";
      if plaintext == "" {
        error := InvalidInput;
        return;
      }
      var result := "";
      var i := 0;
      while i < |plaintext|
        invariant 0 <= i <= |plaintext|
        invariant result == EncryptChars(plaintext, key)[..i]
      {
        var textChar := plaintext[i] as int;
        var keyChar := key[i % |key|] as int;
        var encryptedChar := JsRem(textChar + keyChar, 256);
        result := result + [FromCharCode(encryptedChar)];
        i := i + 1;
      }
      ciphertext := result;
    }

    /** `decrypt`: writes either `plaintext` or `error`, nothing else. */
    method Decrypt()
      modifies this
      ensures ciphertext == old(ciphertext) && key == old(key)
      ensures match DecryptText(old(ciphertext), old(key))
        case Ok(p) => plaintext == p && error == ""
        case Err(m) => plaintext == old(plaintext) && error == m
    {
      if key == "" {
        error := KeyMissing;
        return;
      }
      error := "";
      if ciphertext == "" {
        error := InvalidInput;
        return;
      }
      var result := "";
      var i := 0;
      while i < |ciphertext|
        invariant 0 <= i <= |ciphertext|
        invariant result == DecryptChars(ciphertext, key)[..i]
      {
        var textChar := ciphertext[i] as int;
        var keyChar := key[i % |key|] as int;
        var decryptedChar := JsRem(textChar - keyChar + 256, 256);
        result := result + [FromCharCode(decryptedChar)];
        i := i + 1;
      }
      plaintext := result;
    }
  }
}
