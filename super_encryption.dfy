/**
  The super-encryption component (src/components/SuperEncryption.tsx): the
  extended Vigenere cipher on the raw text, then columnar transposition of
  its output; decryption undoes the two steps in the opposite order.
*/
module SuperEncryption {
  import opened Results
  import opened ModArith
  import ExtendedVigenere
  import opened Transposition

  /** `extendedVigenereEncrypt` (SuperEncryption.tsx:17-27), the same loop as the extended Vigenere component. */
  method ExtendedVigenereEncrypt(text: string, key: string) returns (result: string)
    requires |key| > 0
    ensures result == ExtendedVigenere.EncryptChars(text, key)
  {
    result := "";
    var i := 0;
    while i < |text|
      invariant 0 <= i <= |text|
      invariant result == ExtendedVigenere.EncryptChars(text, key)[..i]
    {
      var textChar := text[i] as int;
      var keyChar := key[i % |key|] as int;
      var encryptedChar := JsRem(textChar + keyChar, 256);
      assert ExtendedVigenere.FromCharCode(encryptedChar) == ExtendedVigenere.EncryptChar(text[i], key[i % |key|]);
      result := result + [ExtendedVigenere.FromCharCode(encryptedChar)];
      i := i + 1;
    }
  }

  /** `extendedVigenereDecrypt` (SuperEncryption.tsx:29-39). */
  method ExtendedVigenereDecrypt(text: string, key: string) returns (result: string)
    requires |key| > 0
    ensures result == ExtendedVigenere.DecryptChars(text, key)
  {
    result := "";
    var i := 0;
    while i < |text|
      invariant 0 <= i <= |text|
      invariant result == ExtendedVigenere.DecryptChars(text, key)[..i]
    {
      var textChar := text[i] as int;
      var keyChar := key[i % |key|] as int;
      var decryptedChar := JsRem(textChar - keyChar + 256, 256);
      assert ExtendedVigenere.FromCharCode(decryptedChar) == ExtendedVigenere.DecryptChar(text[i], key[i % |key|]);
      result := result + [ExtendedVigenere.FromCharCode(decryptedChar)];
      i := i + 1;
    }
  }

  /** What `encrypt` (SuperEncryption.tsx:41-61) computes. */
  function EncryptText(plaintext: string, key: string, columns: int): Result<string>
  {
    if key == "" then Err(ExtendedVigenere.KeyMissing)
    else if plaintext == "" then Err(ExtendedVigenere.InvalidInput)
    else Ok(Transposed(ExtendedVigenere.EncryptChars(plaintext, key), columns))
  }

  /** What `decrypt` (SuperEncryption.tsx:63-83) computes. */
  function DecryptText(ciphertext: string, key: string, columns: int): Result<string>
  {
    if key == "" then Err(ExtendedVigenere.KeyMissing)
    else if ciphertext == "" then Err(ExtendedVigenere.InvalidInput)
    else Ok(ExtendedVigenere.DecryptChars(InverseTransposed(ciphertext, columns), key))
  }

  /**
    With the same key and column count, decryption gives back every plaintext
    whose codes, and the key's, are below 256.
  */
  lemma RoundTrip(plaintext: string, key: string, columns: int)
    requires EncryptText(plaintext, key, columns).Ok?
    requires ExtendedVigenere.ByteText(plaintext) && ExtendedVigenere.ByteText(key)
    ensures DecryptText(EncryptText(plaintext, key, columns).value, key, columns) == Ok(plaintext)
  {
    var v := ExtendedVigenere.EncryptChars(plaintext, key);
    InverseAfterTranspose(v, columns);
    ExtendedVigenere.RoundTrip(plaintext, key);
  }

  /** And encryption undoes decryption on every ciphertext of codes below 256. */
  lemma RoundTripInverse(ciphertext: string, key: string, columns: int)
    requires DecryptText(ciphertext, key, columns).Ok?
    requires ExtendedVigenere.ByteText(ciphertext) && ExtendedVigenere.ByteText(key)
    ensures EncryptText(DecryptText(ciphertext, key, columns).value, key, columns) == Ok(ciphertext)
  {
    var u := InverseTransposed(ciphertext, columns);
    InversePermutes(ciphertext, columns);
    assert ExtendedVigenere.ByteText(u) by {
      forall i | 0 <= i < |u| ensures u[i] as int < 256 {
        assert u[i] in multiset(ciphertext);
      }
    }
    ExtendedVigenere.RoundTripInverse(u, key);
    TransposeAfterInverse(ciphertext, columns);
  }

  /** The ciphertext holds exactly the characters of the extended Vigenere output, reordered. */
  lemma CiphertextPermutes(plaintext: string, key: string, columns: int)
    requires EncryptText(plaintext, key, columns).Ok?
    ensures multiset(EncryptText(plaintext, key, columns).value) == multiset(ExtendedVigenere.EncryptChars(plaintext, key))
    ensures |EncryptText(plaintext, key, columns).value| == |plaintext|
  {
    TransposePermutes(ExtendedVigenere.EncryptChars(plaintext, key), columns);
    StartTotal(|plaintext|, EffectiveColumns(columns));
    ColumnsUpToLength(ExtendedVigenere.EncryptChars(plaintext, key), EffectiveColumns(columns), EffectiveColumns(columns));
  }

  /** The component's state: text areas, key, column count and the error line. */
  class SuperEncryptionCipher {
    var plaintext: string
    var ciphertext: string
    var key: string
    var columns: int
    var error: string

    constructor ()
      ensures plaintext == "" && ciphertext == "" && key == "" && error == ""
      ensures columns == 3
    {
      plaintext, ciphertext, key, error := "", "", "", "";
      columns := 3;
    }

    /** The column field changed; `parsed` is what `parseInt` made of the entry. */
    method SetColumns(parsed: Option<int>)
      modifies this
      ensures columns == ParsedOr(parsed, 3)
      ensures plaintext == old(plaintext) && ciphertext == old(ciphertext)
      ensures key == old(key) && error == old(error)
    {
      columns := ParsedOr(parsed, 3);
    }

    /** `encrypt`: writes either `ciphertext` or `error`, nothing else. */
    method Encrypt()
      modifies this
      ensures plaintext == old(plaintext) && key == old(key) && columns == old(columns)
      ensures match EncryptText(old(plaintext), old(key), old(columns))
        case Ok(c) => ciphertext == c && error == ""
        case Err(m) => ciphertext == old(ciphertext) && error == m
    {
      if key == "" {
        error := ExtendedVigenere.KeyMissing;
        return;
      }
      error := "";
      if plaintext == "" {
        error := ExtendedVigenere.InvalidInput;
        return;
      }
      var vigenereResult := ExtendedVigenereEncrypt(plaintext, key);
      var transpositionResult := TransposeText(vigenereResult, columns);
      ciphertext := transpositionResult;
    }

    /** `decrypt`: writes either `plaintext` or `error`, nothing else. */
    method Decrypt()
      modifies this
      ensures ciphertext == old(ciphertext) && key == old(key) && columns == old(columns)
      ensures match DecryptText(old(ciphertext), old(key), old(columns))
        case Ok(p) => plaintext == p && error == ""
        case Err(m) => plaintext == old(plaintext) && error == m
    {
      if key == "" {
        error := ExtendedVigenere.KeyMissing;
        return;
      }
      error := "";
      if ciphertext == "" {
        error := ExtendedVigenere.InvalidInput;
        return;
      }
      var inverseTransposeResult := InverseTranspose(ciphertext, columns);
      var vigenereDecryptResult := ExtendedVigenereDecrypt(inverseTransposeResult, key);
      plaintext := vigenereDecryptResult;
    }
  }
}
