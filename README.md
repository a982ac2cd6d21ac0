# Classical ciphers: a verified model

This project models the cipher engine of a classical-cipher teaching app. It
covers the shared helpers of `src/utils/cipherUtils.ts` and the encryption and
decryption bodies of six cipher components:

- Vigenère;
- extended Vigenère;
- Affine;
- Hill;
- Playfair;
- super encryption, which is extended Vigenère followed by columnar transposition.

Each component is a small state holder. It has text areas, key fields and an
error line. Its `encrypt` and `decrypt` handlers read that state and write
either the result field or the error line. In the model each component is a
`class` with those fields. Its `Encrypt` and `Decrypt` methods are proved
against a pure function of the old state, such as `Vigenere.EncryptText`. The
round-trip, failure-case and shape properties are lemmas about those
functions.

Modules, one per file:

| module | file | models |
|---|---|---|
| `Results` | results.dfy | the `Result` and `Option` wrappers |
| `ModArith` | mod_arith.dfy | `mod`, `gcd`, `modInverse`, and JavaScript's truncating `%` |
| `Alphabet` | alphabet.dfy | `letterToNumber`, `numberToLetter`, `normalizeText` |
| `Matrices` | matrix.dfy | `multiplyMatrices`, `determinant`, `adjugate`, `invertMatrix`, `stringToMatrix` |
| `MatrixAlgebra` | matrix_algebra.dfy | what the matrix helpers compute modulo 26, and the corrected inverse |
| `Transposition` | transposition.dfy | `transposeText` and `inverseTranspose` |
| `Vigenere` | vigenere.dfy | VigenereCipher.tsx |
| `ExtendedVigenere` | extended_vigenere.dfy | ExtendedVigenere.tsx |
| `SuperEncryption` | super_encryption.dfy | SuperEncryption.tsx |
| `Affine` | affine.dfy | AffineCipher.tsx |
| `Hill` | hill.dfy | HillCipher.tsx |
| `PlayfairSquare` | playfair_square.dfy | `generatePlayfairMatrix`, `findPositionInPlayfair` |
| `Playfair` | playfair.dfy | PlayfairCipher.tsx |

The components keep some defects of the source as written. Each of these has
a corrected definition beside it that is proved to have the intended property
(see "## Findings"):

- `modInverse` falls back to 1.
- The 2×2 adjugate is transposed.
- The Hill component lays out its blocks wrongly.
- A negative `a` passes the Affine component's `validateA`, but `modInverse`
  finds no inverse for it and falls back to 1, so decryption does not undo
  encryption (AffineCipher.tsx:60, `Affine.NegativeAExample`).

### Where the code departs from its own evident intent

In each case below, the model follows the code.

- **Invertibility.** The decrypt handler checks `invertMatrix`'s result and
  reports that the key is not invertible when there is none
  (HillCipher.tsx:91-96). But `invertMatrix` never returns `null`, because
  `modInverse` returns 1 when no inverse exists (`Matrices.InverseNeverNone`).
  So that message is unreachable, and the default key `[[1,2],[3,4]]`,
  whose determinant −2 has no inverse modulo 26, "decrypts"
  (`Hill.DefaultKeyExample`).
- **Adjugate.** The adjugate of a square matrix is, by definition, the
  transpose of its cofactor matrix. For sizes other than 2, `adjugate`
  returns the cofactor matrix itself (`MatrixAlgebra.AdjIsCofactorMatrix`).
  `invertMatrix` then transposes it, which gives the true adjugate for 3×3.
  For 2×2, `adjugate` already returns the true adjugate, so the
  transposition in `invertMatrix` spoils it.
- **Hill layout.** The comment at HillCipher.tsx:66 says the text is turned
  into column vectors, and decryption works block by block. Encryption
  instead multiplies the key by the matrix whose rows are the first N
  blocks of the text. It throws when the padded text is shorter than N×N
  letters, that is when the normalized text has at most N×N−N letters
  (`Hill.EncryptTextLength`; a text without letters is refused before), and
  it drops every letter beyond the first N×N.

### Edge cases that still work

- **Transposition round trip.** `inverseTranspose` undoes `transposeText`
  for every text and every column count, the empty text and column counts
  of 0 or less included (`Transposition.InverseAfterTranspose`).

## Model

| member | source | states |
|---|---|---|
| ModArith.JsRem | src/components/VigenereCipher.tsx:34 | JavaScript's `%`: the remainder is smaller than the divisor in magnitude, has the dividend's sign, and differs from the dividend by a multiple of the divisor |
| ModArith.Mod | src/utils/cipherUtils.ts:5 | `mod` gives the mathematical residue in [0, m) for a positive modulus, negative arguments included |
| ModArith.GcdNonNegative | src/utils/cipherUtils.ts:17-20 | the gcd of two non-negative numbers is non-negative |
| ModArith.GcdDivides | src/utils/cipherUtils.ts:17-20 | the gcd divides both arguments |
| ModArith.GcdGreatest | src/utils/cipherUtils.ts:17-20 | every positive common divisor divides the gcd, so it is the greatest one |
| ModArith.GcdExample | src/utils/cipherUtils.ts:17-20 | gcd(48, 18) = 6 and gcd(7, 0) = 7 |
| ModArith.ModInverse | src/utils/cipherUtils.ts:7-15 | the search loop returns exactly the value `ModInverseOf` describes |
| ModArith.ModInverseSpec | src/utils/cipherUtils.ts:7-15 | when an inverse exists the result is the least x in [1, m) with a·x ≡ 1; when none exists the result is the fallback 1 |
| ModArith.ModInverseExample | src/utils/cipherUtils.ts:7-15 | modInverse(7, 26) = 15 |
| ModArith.CoprimeInverse26 | src/utils/cipherUtils.ts:7-15 | for a ≥ 0 coprime with 26 the result really inverts a modulo 26 |
| ModArith.CoprimeIff26 | src/utils/cipherUtils.ts:17-20 | for a ≥ 0, gcd(a, 26) = 1 exactly when a mod 26 is odd and not 13 |
| ModArith.CoprimeResidue26 | src/utils/cipherUtils.ts:17-20 | any a coprime with 26, negative included, has an odd residue other than 13 |
| ModArith.NegativeNoInverse | src/utils/cipherUtils.ts:7-15 | for a negative a the truncating remainder is never 1, so the search always falls back to 1 |
| ModArith.InverseIffCoprime26 | src/utils/cipherUtils.ts:7-15 | a non-negative d has an inverse modulo 26 exactly when gcd(d, 26) = 1 |
| ModArith.InverseCoprime | src/utils/cipherUtils.ts:7-15 | a number with an inverse modulo m is coprime with m |
| ModArith.InverseTable26 | src/utils/cipherUtils.ts:7-15 | each of the twelve units modulo 26 has an inverse in [1, 26) |
| ModArith.ModInverseChecked | src/utils/cipherUtils.ts:14 | the corrected `modInverse`: `None` exactly when no inverse exists, otherwise the search's value, which lies in [1, m) and inverts a |
| Alphabet.LetterToNumber | src/utils/cipherUtils.ts:23-25 | the number lies in [0, 26) exactly when the upper-cased character is a letter |
| Alphabet.NumberToLetter | src/utils/cipherUtils.ts:28-30 | the result is always a capital letter whose number is n mod 26, negative n included |
| Alphabet.SameResidueSameLetter | src/utils/cipherUtils.ts:28-30 | numbers congruent modulo 26 give the same letter |
| Alphabet.NumberRoundTrip | src/utils/cipherUtils.ts:23-30 | a number in 0..25 comes back unchanged from `numberToLetter` through `letterToNumber` |
| Alphabet.LetterRoundTrip | src/utils/cipherUtils.ts:23-30 | converting a letter to its number and back gives the upper-cased letter |
| Alphabet.CodecExamples | src/utils/cipherUtils.ts:23-30 | 'b' → 1, 27 → 'B', −1 → 'Z' |
| Alphabet.NormalizeText | src/utils/cipherUtils.ts:118-120 | the result is capital letters only and no longer than the input |
| Alphabet.NormalizeLetters | src/utils/cipherUtils.ts:118-120 | a text of capital letters is left unchanged |
| Alphabet.NormalizeIdempotent | src/utils/cipherUtils.ts:118-120 | normalizing twice is the same as normalizing once |
| Alphabet.NormalizeAppend | src/utils/cipherUtils.ts:118-120 | normalization distributes over concatenation |
| Matrices.MatMul | src/utils/cipherUtils.ts:33-46 | the product has a's rows and b's columns |
| Matrices.MultiplyMatrices | src/utils/cipherUtils.ts:33-46 | the triple loop computes the row-by-column product `MatMul` |
| Matrices.IdentityLeft | src/utils/cipherUtils.ts:33-46 | the identity times b is b |
| Matrices.RemoveAt | src/utils/cipherUtils.ts:54-65 | dropping entry c shifts every later entry down by one |
| Matrices.Minor | src/utils/cipherUtils.ts:54-65 | a minor of an n×n matrix is (n−1)×(n−1) |
| Matrices.MinorEntry | src/utils/cipherUtils.ts:54-65 | entry (k, l) of the minor is the entry of m that skips row r and column c |
| Matrices.Determinant | src/utils/cipherUtils.ts:48-67 | the method computes `Det`: the 2×2 formula, otherwise cofactor expansion along row 0 with signs (−1)^j |
| Matrices.Det3 | src/utils/cipherUtils.ts:48-67 | for 3×3 the expansion equals the closed six-term formula |
| Matrices.DetIdentity | src/utils/cipherUtils.ts:48-67 | the identity has determinant 1 |
| Matrices.Adj | src/utils/cipherUtils.ts:69-96 | the adjugate of an n×n matrix is n×n |
| Matrices.Adjugate | src/utils/cipherUtils.ts:69-96 | the method computes `Adj` |
| Matrices.CofactorRow | src/utils/cipherUtils.ts:80-93 | the inner loop of `adjugate` builds row i with one entry per column, entry j being the signed minor `Cofactor(matrix, i, j)` |
| Matrices.MinorOf | src/utils/cipherUtils.ts:77-95 | the row and column removal loops build `Minor` |
| Matrices.RemoveEntry | src/utils/cipherUtils.ts:77-95 | the filter that removes column j builds `RemoveAt` |
| Matrices.ScaledTranspose | src/utils/cipherUtils.ts:107-112 | the scaled transpose is n×n with every entry in [0, 26) |
| Matrices.Inverse | src/utils/cipherUtils.ts:98-115 | a returned inverse has the key's size |
| Matrices.InvertMatrix | src/utils/cipherUtils.ts:98-115 | the method computes `Inverse` |
| Matrices.ScaleTransposed | src/utils/cipherUtils.ts:107-112 | the nested loop builds `ScaledTranspose` |
| Matrices.InverseNeverNone | src/utils/cipherUtils.ts:98-115 | `invertMatrix` never returns `null` |
| Matrices.CeilDivBounds | src/utils/cipherUtils.ts:123-137 | the row count of `stringToMatrix` is the least number of rows covering the text |
| Matrices.CeilDivExact | src/utils/cipherUtils.ts:123-137 | for a length divisible by the size, the row count is the exact quotient |
| Matrices.TextMatrix | src/utils/cipherUtils.ts:123-137 | ⌈len/size⌉ rows of size entries |
| Matrices.TextMatrixLetters | src/utils/cipherUtils.ts:123-137 | entry (i, j) is the number of letter i·size+j, or of 'X' past the end of the text |
| Matrices.StringToMatrix | src/utils/cipherUtils.ts:123-137 | the loop builds `TextMatrix` |
| MatrixAlgebra.MatMulAssoc | src/utils/cipherUtils.ts:33-46 | matrix multiplication is associative |
| MatrixAlgebra.Cofactors3 | src/utils/cipherUtils.ts:77-95 | the nine signed cofactors of a 3×3 matrix in closed form |
| MatrixAlgebra.ColumnIdentityAt | src/utils/cipherUtils.ts:77-95 | the cofactors of column i weighted by the entries of column j sum to the determinant when i = j and to 0 otherwise |
| MatrixAlgebra.RowIdentityAt | src/utils/cipherUtils.ts:77-95 | the same along rows: row i weighted by the cofactors of row j gives the determinant or 0 |
| MatrixAlgebra.AdjIsCofactorMatrix | src/utils/cipherUtils.ts:77-95 | for every size other than 2, `adjugate` returns the cofactor matrix, not its transpose |
| MatrixAlgebra.Adj2Transposed | src/utils/cipherUtils.ts:70-75 | for 2×2, `adjugate` returns the transposed cofactor matrix, which is the true adjugate |
| MatrixAlgebra.AdjugateTimes | src/utils/cipherUtils.ts:77-95 | the transposed cofactor matrix times m is det(m)·I, for sizes 2 and 3 |
| MatrixAlgebra.TimesAdjugate | src/utils/cipherUtils.ts:77-95 | m times the transposed cofactor matrix is det(m)·I, for sizes 2 and 3 |
| MatrixAlgebra.InverseFixed | src/utils/cipherUtils.ts:98-115 | the corrected inverse exists exactly when the determinant's residue has an inverse modulo 26 |
| MatrixAlgebra.InverseFixedExists | src/utils/cipherUtils.ts:98-115 | the corrected inverse exists exactly when gcd(det mod 26, 26) = 1 |
| MatrixAlgebra.InverseFixedCorrect | src/utils/cipherUtils.ts:98-115 | the corrected inverse is a left and a right inverse modulo 26, with entries in [0, 26) |
| MatrixAlgebra.Inverse3Correct | src/utils/cipherUtils.ts:98-115 | for an invertible 3×3 key, `invertMatrix` as written returns the corrected inverse |
| MatrixAlgebra.Inverse2Transposed | src/utils/cipherUtils.ts:69-115 | for 2×2, `invertMatrix` as written returns the transpose of the true inverse |
| MatrixAlgebra.Inverse2Counterexample | src/utils/cipherUtils.ts:69-115 | [[1,2],[0,1]] "inverts" to [[1,0],[24,1]], which is not an inverse; the true inverse is [[1,24],[0,1]] |
| Transposition.EffectiveColumns | src/utils/cipherUtils.ts:194 | the column count is at least 1 and equals the requested count whenever that is at least 1 |
| Transposition.NumRowsValue | src/utils/cipherUtils.ts:196 | the row count is ⌈len/k⌉ |
| Transposition.ColSizeValue | src/utils/cipherUtils.ts:228-230 | column j holds ⌊len/k⌋ cells, plus one when j < len mod k |
| Transposition.ColSizeSpec | src/utils/cipherUtils.ts:228-230 | row i of column j exists exactly when i·k + j < len |
| Transposition.ColumnAt | src/utils/cipherUtils.ts:200-214 | cell i of column j is character i·k + j of the text |
| Transposition.InverseTransposed | src/utils/cipherUtils.ts:220-257 | the inverse transposition keeps the length |
| Transposition.InverseAfterTranspose | src/utils/cipherUtils.ts:192-257 | `inverseTranspose` undoes `transposeText` for every text and column count |
| Transposition.TransposeAfterInverse | src/utils/cipherUtils.ts:192-257 | `transposeText` undoes `inverseTranspose` for every text and column count |
| Transposition.TransposePermutes | src/utils/cipherUtils.ts:192-217 | the transposed text is a permutation of the text |
| Transposition.InversePermutes | src/utils/cipherUtils.ts:220-257 | the inverse transposition is a permutation of its input |
| Transposition.TransposeText | src/utils/cipherUtils.ts:192-217 | the grid-filling and column-reading loops compute `Transposed` |
| Transposition.InverseTranspose | src/utils/cipherUtils.ts:220-257 | the column-filling and row-reading loops compute `InverseTransposed` |
| Transposition.ReadByColumns | src/utils/cipherUtils.ts:209-214 | reading the filled grid column by column, skipping empty cells, gives the columns of the text in order |
| Transposition.ReadByRows | src/utils/cipherUtils.ts:249-254 | reading the column-filled grid row by row, skipping empty cells, gives `InverseTransposed` |
| Transposition.ColumnsBagOfRead | src/utils/cipherUtils.ts:209-214 | the letters read from the first j columns are, as a multiset, the union of those columns' letters |
| Transposition.ColumnsSnocMultiset | src/utils/cipherUtils.ts:199-214 | appending a character adds it to exactly one column, the one at position length mod k |
| Transposition.BagPermutes | src/utils/cipherUtils.ts:199-214 | the k columns together hold every character of the text exactly as often as the text does |
| Vigenere.EncryptLetters | src/components/VigenereCipher.tsx:30-36 | the ciphertext has the text's length and is all capital letters |
| Vigenere.DecryptLetters | src/components/VigenereCipher.tsx:56-62 | the plaintext has the text's length and is all capital letters |
| Vigenere.EncryptLoop | src/components/VigenereCipher.tsx:30-36 | the encryption loop, cycling through the key, computes `EncryptLetters` |
| Vigenere.DecryptLoop | src/components/VigenereCipher.tsx:56-62 | the decryption loop, cycling through the key, computes `DecryptLetters` |
| Vigenere.EncryptAppend | src/components/VigenereCipher.tsx:30-36 | when the first part is a whole number of key lengths, encrypting a concatenation encrypts each part with the key restarted |
| Vigenere.LetterRoundTrip | src/components/VigenereCipher.tsx:15-65 | the decryption formula undoes the encryption formula on a letter |
| Vigenere.LettersRoundTrip | src/components/VigenereCipher.tsx:15-65 | with a letter key of any length, decryption undoes encryption on every letter text |
| Vigenere.RoundTrip | src/components/VigenereCipher.tsx:15-65 | decrypting a successful encryption gives the normalized plaintext |
| Vigenere.EncryptFailures | src/components/VigenereCipher.tsx:16-28 | encryption fails exactly on an empty key, a text without letters, or a key without letters; the ciphertext has the normalized text's length |
| Vigenere.EncryptExample | src/components/VigenereCipher.tsx:30-36 | HELLOWORLD with key KEY gives RIJVSUYVJN |
| Vigenere.DecryptExample | src/components/VigenereCipher.tsx:56-62 | RIJVSUYVJN with key KEY gives HELLOWORLD |
| Vigenere.VigenereCipher.constructor | src/components/VigenereCipher.tsx:10-13 | every field starts empty |
| Vigenere.VigenereCipher.Encrypt | src/components/VigenereCipher.tsx:15-39 | writes the ciphertext and clears the error, or writes the error and leaves the ciphertext; the inputs are unchanged |
| Vigenere.VigenereCipher.Decrypt | src/components/VigenereCipher.tsx:41-65 | writes the plaintext and clears the error, or writes the error and leaves the plaintext; the inputs are unchanged |
| ExtendedVigenere.FromCharCode | src/components/ExtendedVigenere.tsx:32-33 | `String.fromCharCode` keeps the argument modulo 2^16 |
| ExtendedVigenere.EncryptChar | src/components/ExtendedVigenere.tsx:32-33 | the ciphertext code is (p + k) mod 256 |
| ExtendedVigenere.DecryptChar | src/components/ExtendedVigenere.tsx:57 | for key codes up to 256 the plaintext code is (c − k) mod 256 |
| ExtendedVigenere.EncryptChars | src/components/ExtendedVigenere.tsx:27-34 | the ciphertext has the text's length and only codes below 256 |
| ExtendedVigenere.DecryptChars | src/components/ExtendedVigenere.tsx:52-59 | the plaintext has the text's length, and only codes below 256 when the key does |
| ExtendedVigenere.CharRoundTrip | src/components/ExtendedVigenere.tsx:14-62 | decryption undoes encryption on one character below 256 |
| ExtendedVigenere.CharRoundTripInverse | src/components/ExtendedVigenere.tsx:14-62 | encryption undoes decryption on one character below 256 |
| ExtendedVigenere.RoundTrip | src/components/ExtendedVigenere.tsx:14-62 | with a byte key, decryption gives back every byte plaintext |
| ExtendedVigenere.RoundTripInverse | src/components/ExtendedVigenere.tsx:14-62 | with a byte key, encryption gives back every byte ciphertext |
| ExtendedVigenere.WideCharacterLost | src/components/ExtendedVigenere.tsx:27-34 | a plaintext character with a code of 256 or more never survives the round trip |
| ExtendedVigenere.WideKeyExample | src/components/ExtendedVigenere.tsx:52-59 | a key code of 600 drives the decryption remainder negative, which `fromCharCode` turns into a code near 0xFFFF |
| ExtendedVigenere.ExtendedVigenereCipher.constructor | src/components/ExtendedVigenere.tsx:9-12 | every field starts empty |
| ExtendedVigenere.ExtendedVigenereCipher.Encrypt | src/components/ExtendedVigenere.tsx:14-37 | writes the ciphertext and clears the error, or writes the error; the inputs are unchanged |
| ExtendedVigenere.ExtendedVigenereCipher.Decrypt | src/components/ExtendedVigenere.tsx:39-62 | writes the plaintext and clears the error, or writes the error; the inputs are unchanged |
| SuperEncryption.ExtendedVigenereEncrypt | src/components/SuperEncryption.tsx:17-27 | the component's own loop computes the extended Vigenère encryption |
| SuperEncryption.ExtendedVigenereDecrypt | src/components/SuperEncryption.tsx:29-39 | the component's own loop computes the extended Vigenère decryption |
| SuperEncryption.RoundTrip | src/components/SuperEncryption.tsx:41-83 | with the same key and column count, decryption gives back every byte plaintext |
| SuperEncryption.RoundTripInverse | src/components/SuperEncryption.tsx:41-83 | with the same key and column count, encryption gives back every byte ciphertext |
| SuperEncryption.CiphertextPermutes | src/components/SuperEncryption.tsx:41-61 | the ciphertext is a reordering of the extended Vigenère output and has the plaintext's length |
| SuperEncryption.SuperEncryptionCipher.constructor | src/components/SuperEncryption.tsx:10-14 | empty fields and three columns |
| SuperEncryption.SuperEncryptionCipher.SetColumns | src/components/SuperEncryption.tsx:115 | only the column count changes |
| SuperEncryption.SuperEncryptionCipher.Encrypt | src/components/SuperEncryption.tsx:41-61 | writes the ciphertext and clears the error, or writes the error; the inputs are unchanged |
| SuperEncryption.SuperEncryptionCipher.Decrypt | src/components/SuperEncryption.tsx:63-83 | writes the plaintext and clears the error, or writes the error; the inputs are unchanged |
| Affine.ValidAResidues | src/components/AffineCipher.tsx:16-19 | a non-negative a passes `validateA` exactly when a mod 26 is odd and not 13 |
| Affine.EncryptLetters | src/components/AffineCipher.tsx:35-41 | the ciphertext has the text's length and is all capital letters |
| Affine.DecryptLetters | src/components/AffineCipher.tsx:62-68 | the plaintext has the text's length and is all capital letters |
| Affine.EncryptLoop | src/components/AffineCipher.tsx:35-41 | the encryption loop computes `EncryptLetters` |
| Affine.DecryptLoop | src/components/AffineCipher.tsx:62-68 | the decryption loop computes `DecryptLetters` |
| Affine.AffineInverts | src/components/AffineCipher.tsx:21-71 | with a⁻¹·a ≡ 1, the decryption formula undoes the encryption formula on a residue |
| Affine.LetterRoundTrip | src/components/AffineCipher.tsx:21-71 | the same on one letter |
| Affine.LettersRoundTrip | src/components/AffineCipher.tsx:21-71 | the same on every letter text |
| Affine.RoundTrip | src/components/AffineCipher.tsx:21-71 | for a ≥ 0, decrypting a successful encryption gives the normalized plaintext |
| Affine.EncryptFailures | src/components/AffineCipher.tsx:21-34 | encryption reports the coprimality error exactly when a is invalid, and the empty-text error exactly when a is valid and the text has no letters |
| Affine.EncryptExample | src/components/AffineCipher.tsx:39 | with a = 5 and b = 8, 'F' encrypts to 'H' |
| Affine.DecryptExample | src/components/AffineCipher.tsx:66 | with a⁻¹ = 21 and b = 8, 'H' decrypts to 'F' |
| Affine.SmallKeyEncrypt | src/components/AffineCipher.tsx:39 | with a = 3 and b = 5, 'A' encrypts to 'F' |
| Affine.SmallKeyDecrypt | src/components/AffineCipher.tsx:66 | with a⁻¹ = 9 (3 · 9 ≡ 1 mod 26) and b = 5, 'F' decrypts to 'A' |
| Affine.NegativeAExample | src/components/AffineCipher.tsx:60 | a = −7 passes validation, gets the fallback inverse 1, and 'B' encrypts to 'T' but 'T' decrypts to 'T' |
| Affine.RoundTripFixed | src/components/AffineCipher.tsx:46-71 | taking the inverse of a mod 26 makes the round trip hold for every valid a, negative included |
| Affine.ResidueInverse | src/components/AffineCipher.tsx:60 | for every valid a, the inverse of its residue inverts a modulo 26 |
| Results.ParsedOr | src/components/AffineCipher.tsx:92 | a numeric field's parse-or-default: an unparsable or zero entry gives the default d, any other number is kept; the Affine b field (AffineCipher.tsx:109) and the Hill key cells (HillCipher.tsx:27) use d = 0, the column count (SuperEncryption.tsx:115) d = 3 |
| Affine.AffineCipher.constructor | src/components/AffineCipher.tsx:10-14 | empty texts, a = 1, b = 0 |
| Affine.AffineCipher.SetA | src/components/AffineCipher.tsx:92 | only a changes |
| Affine.AffineCipher.SetB | src/components/AffineCipher.tsx:109 | only b changes |
| Affine.AffineCipher.Encrypt | src/components/AffineCipher.tsx:21-44 | writes the ciphertext and clears the error, or writes the error; the inputs are unchanged |
| Affine.AffineCipher.Decrypt | src/components/AffineCipher.tsx:46-71 | writes the plaintext and clears the error, or writes the error; the inputs are unchanged |
| Hill.Decimal | src/components/HillCipher.tsx:98-101 | the size written in the length error is a non-empty numeral |
| Hill.PadLength | src/components/HillCipher.tsx:61-64 | fewer than n padding letters make the length a multiple of n |
| Hill.PadShort | src/components/HillCipher.tsx:61-64 | no shorter padding reaches a multiple of n, so the padding is the least one |
| Hill.Padded | src/components/HillCipher.tsx:61-64 | the text followed by fewer than n 'X's, with a length that is a multiple of n |
| Hill.PadText | src/components/HillCipher.tsx:61-64 | the padding loop computes `Padded` |
| Hill.ColumnLetters | src/components/HillCipher.tsx:71-76 | one column read out is n capital letters |
| Hill.ReadColumns | src/components/HillCipher.tsx:71-76 | reading w columns gives w·n capital letters |
| Hill.ReadColumnsAt | src/components/HillCipher.tsx:71-76 | letter i·n + j of the read-out is the letter of entry (j, i) |
| Hill.ColumnsToText | src/components/HillCipher.tsx:71-76 | the read-out loop computes `ReadColumns` |
| Hill.TransposeRect | src/components/HillCipher.tsx:114-120 | the transpose of a rows×cols matrix is cols×rows |
| Hill.ChunkText | src/components/HillCipher.tsx:104-111 | the chunking loop builds the w×n `TextMatrix` |
| Hill.TransposeChunks | src/components/HillCipher.tsx:114-120 | the transposing loop builds `TransposeRect` |
| Hill.DecryptBlocks | src/components/HillCipher.tsx:104-130 | the chunk, transpose, multiply and read-out loops of decryption give `ReadColumns(MatMul(inv, TransposeRect(TextMatrix(text, n), w, n)), n, w)` on w·n letters, with ⌈len/n⌉ = w chunks |
| Hill.UndoKey | src/components/HillCipher.tsx:122 | a left inverse modulo 26 undoes the key column by column |
| Hill.ReadBack | src/components/HillCipher.tsx:125-130 | chunking a column read-out and transposing it gives back the matrix's entries as letters |
| Hill.UndoReadColumns | src/components/HillCipher.tsx:81-133 | decryption's chunk, transpose and multiply steps undo encryption's multiply and read-out, entry by entry |
| Hill.EncryptFixedShape | src/components/HillCipher.tsx:51-79 | the corrected encryption yields a letter text of the padded length |
| Hill.DecryptFixedShape | src/components/HillCipher.tsx:81-133 | the corrected decryption of a letter text of w·n letters is the block-wise product with the inverse |
| Hill.RoundTripFixed | src/components/HillCipher.tsx:51-133 | with a key invertible modulo 26, the corrected decryption gives back the padded plaintext |
| Hill.LetterBack | src/components/HillCipher.tsx:51-133 | each letter of the padded plaintext survives the corrected round trip |
| Hill.EncryptTextLength | src/components/HillCipher.tsx:51-79 | encryption as written throws exactly when the padded text is shorter than n·n letters; otherwise the ciphertext has n·n letters |
| Hill.DecryptTextLength | src/components/HillCipher.tsx:81-133 | a decryption keeps the normalized ciphertext's length |
| Hill.LettersDropped | src/components/HillCipher.tsx:51-79 | a padded text longer than n·n loses letters, so no round trip can give it back |
| Hill.TransposedText | src/components/HillCipher.tsx:71-76 | the n×n transpose of a text keeps its length |
| Hill.DecryptTextShape | src/components/HillCipher.tsx:81-133 | decryption as written of w·n letters is the product of the inverse with the transposed chunks |
| Hill.DecryptCiphertext | src/components/HillCipher.tsx:81-133 | the decryption steps compute `DecryptText` and never end in a thrown error |
| Hill.BlocksRoundTrip | src/components/HillCipher.tsx:81-133 | with a left inverse of the key modulo 26, undoing the key block by block on w·n letters gives them back |
| Hill.EncryptTextShape | src/components/HillCipher.tsx:51-79 | encryption as written of n·n letters reads out the key times the chunk matrix |
| Hill.RoundTripTransposes | src/components/HillCipher.tsx:51-133 | for a 3×3 invertible key and a nine-letter padded text, decryption as written gives the transpose of the text, not the text |
| Hill.LetterTransposed | src/components/HillCipher.tsx:51-133 | the same, letter by letter |
| Hill.NineLettersTransposed | src/components/HillCipher.tsx:51-133 | for nine letters and a 3×3 invertible key, decryption as written returns the 3×3 transpose of the plaintext |
| Hill.DefaultKeyExample | src/components/HillCipher.tsx:20-23 | the default key has determinant −2 and still "decrypts"; the corrected decryption refuses it |
| Hill.IdentityKeyTransposes | src/components/HillCipher.tsx:51-79 | under the identity key, encryption of n·n letters is the transpose of the text |
| Hill.IdentityKeyExample | src/components/HillCipher.tsx:51-79 | ABCD under the 2×2 identity encrypts to ACBD |
| Hill.IdentityLetter | src/components/HillCipher.tsx:71-76 | reading out the chunk matrix column by column transposes the text, letter by letter |
| Hill.HillCipher.constructor | src/components/HillCipher.tsx:17-24 | empty texts, size 2 and the default key |
| Hill.HillCipher.HandleMatrixChange | src/components/HillCipher.tsx:26-34 | only the entry (row, col) of the key changes |
| Hill.HillCipher.HandleSizeChange | src/components/HillCipher.tsx:36-49 | the size changes and the key becomes the identity of that size |
| Hill.HillCipher.Encrypt | src/components/HillCipher.tsx:51-79 | writes the ciphertext, or the error, or on a thrown error clears the error line only |
| Hill.HillCipher.Decrypt | src/components/HillCipher.tsx:81-133 | writes the plaintext and clears the error, or writes the error; the inputs are unchanged |
| PlayfairSquare.Alphabet25At | src/utils/cipherUtils.ts:141 | letter i of the 25-letter alphabet, with J skipped |
| PlayfairSquare.Alphabet25Letters | src/utils/cipherUtils.ts:141 | 25 distinct letters, exactly A–Z without J |
| PlayfairSquare.ReplaceJFacts | src/utils/cipherUtils.ts:145 | J→I keeps the length, maps letters into the square, and leaves a J-free text unchanged |
| PlayfairSquare.KeyLetters | src/utils/cipherUtils.ts:145 | the normalized key holds only letters of the square |
| PlayfairSquare.AddNewFacts | src/utils/cipherUtils.ts:149-174 | placing characters skips the used ones, extends the placed order, and places each character once |
| PlayfairSquare.AddNewPrefix | src/utils/cipherUtils.ts:149-160 | the placed order after a prefix of the key is a prefix of the final order |
| PlayfairSquare.AddNewDistinct | src/utils/cipherUtils.ts:163-174 | the alphabet pass appends the alphabet's unused letters in order |
| PlayfairSquare.DistinctCard | src/utils/cipherUtils.ts:140-177 | distinct characters have as many elements as positions |
| PlayfairSquare.KeySquareFacts | src/utils/cipherUtils.ts:140-177 | the square is 25 distinct letters, exactly A–Z without J: the key's letters in first-appearance order, then the rest of the alphabet |
| PlayfairSquare.GridOf | src/utils/cipherUtils.ts:140-177 | the 5×5 grid holds letter j at row j / 5, column j % 5 |
| PlayfairSquare.KeyGrid | src/utils/cipherUtils.ts:140-177 | the key's matrix is 5×5 |
| PlayfairSquare.PlaceNext | src/utils/cipherUtils.ts:149-174 | placing one character writes only cell (row, col), in bounds |
| PlayfairSquare.PartialFull | src/utils/cipherUtils.ts:163-174 | once 25 letters are placed, the partial grid is the full grid |
| PlayfairSquare.Fill | src/utils/cipherUtils.ts:149-174 | one placing loop keeps matrix, used set and cursor in step with the placed order |
| PlayfairSquare.GeneratePlayfairMatrix | src/utils/cipherUtils.ts:140-177 | the two loops build the key's grid |
| PlayfairSquare.CellInGrid | src/utils/cipherUtils.ts:180-189 | every cell's letter is found in the grid |
| PlayfairSquare.Search | src/utils/cipherUtils.ts:180-189 | the row-major search returns an in-bounds position |
| PlayfairSquare.SearchFound | src/utils/cipherUtils.ts:180-189 | when some cell from k on holds the character, the search stops at the first such cell |
| PlayfairSquare.SearchMissing | src/utils/cipherUtils.ts:180-189 | when no cell from k on holds the character, the search falls back to (0, 0) |
| PlayfairSquare.PositionOf | src/utils/cipherUtils.ts:180-189 | the position is inside the 5×5 grid |
| PlayfairSquare.PositionOfFacts | src/utils/cipherUtils.ts:180-189 | the position holds the character when it is in the grid; otherwise it is (0, 0) |
| PlayfairSquare.PositionInSquare | src/utils/cipherUtils.ts:180-189 | in a square of distinct letters, letter j is found at (j / 5, j % 5) |
| PlayfairSquare.FindPositionInPlayfair | src/utils/cipherUtils.ts:180-189 | the nested loop computes `PositionOf` |
| Playfair.SeparatedFacts | src/components/PlayfairCipher.tsx:30-35 | the separating loop keeps letters in the square, and an equal neighbour is only ever an inserted 'X' |
| Playfair.PreparedFacts | src/components/PlayfairCipher.tsx:24-43 | the prepared text has even length, only square letters and no doubled letter other than 'X'; it is empty exactly when the text has no letters |
| Playfair.PreparedShape | src/components/PlayfairCipher.tsx:24-43 | the prepared text has even length, only square letters, and only X ever follows an equal letter |
| Playfair.PreparedEmpty | src/components/PlayfairCipher.tsx:24-43 | the prepared text is empty exactly when the normalized text is empty |
| Playfair.PreparePlaintext | src/components/PlayfairCipher.tsx:24-43 | the preparation loop computes `Prepared` |
| Playfair.EncryptDigraphs | src/components/PlayfairCipher.tsx:62-88 | digraph encryption keeps the length |
| Playfair.DecryptDigraphs | src/components/PlayfairCipher.tsx:110-136 | digraph decryption keeps the length |
| Playfair.PairInGrid | src/components/PlayfairCipher.tsx:71-85 | the pair rules only ever produce letters of the grid |
| Playfair.EncryptedInGrid | src/components/PlayfairCipher.tsx:62-88 | every letter of a digraph encryption is a letter of the grid |
| Playfair.EncryptRule | src/components/PlayfairCipher.tsx:71-85 | same row: the letters to the right; same column: the letters below; otherwise the rectangle's other corners |
| Playfair.DecryptRule | src/components/PlayfairCipher.tsx:119-133 | same row: the letters to the left; same column: the letters above; otherwise the rectangle's other corners |
| Playfair.SquarePositioned | src/utils/cipherUtils.ts:180-189 | in a key square every cell is found at its own position |
| Playfair.RowRoundTrip | src/components/PlayfairCipher.tsx:71-133 | decryption undoes encryption on a same-row pair |
| Playfair.RowRoundTripInverse | src/components/PlayfairCipher.tsx:71-133 | encryption undoes decryption on a same-row pair |
| Playfair.ColumnRoundTrip | src/components/PlayfairCipher.tsx:71-133 | decryption undoes encryption on a same-column pair |
| Playfair.ColumnRoundTripInverse | src/components/PlayfairCipher.tsx:71-133 | encryption undoes decryption on a same-column pair |
| Playfair.RectangleRoundTrip | src/components/PlayfairCipher.tsx:71-133 | each direction undoes the other on a rectangle pair |
| Playfair.PairRoundTrip | src/components/PlayfairCipher.tsx:71-133 | decryption undoes encryption on every pair of grid letters, doubled pairs included |
| Playfair.PairRoundTripInverse | src/components/PlayfairCipher.tsx:71-133 | encryption undoes decryption on every pair of grid letters |
| Playfair.GridLetters | src/utils/cipherUtils.ts:140-177 | a character is in the grid exactly when it is in the square's order |
| Playfair.DigraphsRoundTrip | src/components/PlayfairCipher.tsx:62-136 | digraph decryption undoes digraph encryption on every even text of grid letters |
| Playfair.DigraphsRoundTripInverse | src/components/PlayfairCipher.tsx:62-136 | digraph encryption undoes digraph decryption on every even text of grid letters |
| Playfair.CachedMatrix | src/components/PlayfairCipher.tsx:16-22 | the cached matrix is empty or a 5×5 grid |
| Playfair.EncryptFailures | src/components/PlayfairCipher.tsx:45-57 | encryption reports the missing key exactly when the key is empty, and the invalid input exactly when the key is set and the text has no letters |
| Playfair.DecryptFailures | src/components/PlayfairCipher.tsx:93-105 | decryption reports the missing key exactly when the key is empty, and the even-length error exactly when the ciphertext's letters are none or odd in number |
| Playfair.DecryptLettersInSquare | src/components/PlayfairCipher.tsx:100 | after J→I every ciphertext letter is in the key's grid, so the (0, 0) fallback is never used |
| Playfair.CiphertextInSquare | src/components/PlayfairCipher.tsx:45-91 | the ciphertext has the prepared text's length and holds only square letters |
| Playfair.CiphertextReadsBack | src/components/PlayfairCipher.tsx:93-100 | decryption's normalization and J→I replacement leave a Playfair ciphertext unchanged |
| Playfair.RoundTrip | src/components/PlayfairCipher.tsx:45-139 | decrypting a successful encryption with the same key gives the prepared plaintext |
| Playfair.EncryptLoop | src/components/PlayfairCipher.tsx:62-88 | the digraph loop computes `EncryptDigraphs` |
| Playfair.DecryptLoop | src/components/PlayfairCipher.tsx:110-136 | the digraph loop computes `DecryptDigraphs` |
| Playfair.PlayfairCipher.constructor | src/components/PlayfairCipher.tsx:10-14 | empty fields and an empty matrix, consistent with the empty key |
| Playfair.PlayfairCipher.SetKey | src/components/PlayfairCipher.tsx:16-22 | the key changes and the matrix becomes the one for the new key |
| Playfair.PlayfairCipher.Encrypt | src/components/PlayfairCipher.tsx:45-91 | writes the ciphertext and clears the error, or writes the error; the key and matrix stay consistent |
| Playfair.PlayfairCipher.Decrypt | src/components/PlayfairCipher.tsx:93-139 | writes the plaintext and clears the error, or writes the error; the key and matrix stay consistent |

## Left out

- The Auto-Key Vigenère component is not part of this model: its source is not available.
- The tabs, page layout and JSX rendering are left out: they only display state.
- `parseInt` is not modelled. The setters take its outcome as an `Option<int>`: `None` stands for `NaN`, and `Some(n)` for a parsed number.
- React's state batching and effect timing are left out. Each handler is modelled as one atomic update. The Playfair key effect runs as part of `SetKey`.
- `toUpperCase` is modelled for ASCII letters only. Other characters that JavaScript upper-cases to A–Z are not modelled.
- A `char` is a Unicode scalar value, whereas `charCodeAt` and the string length work on UTF-16 code units. A character outside the Basic Multilingual Plane is one `char` here and two code units in the source, so the length, the key alignment and the extended Vigenère output differ on such text. The extended Vigenère properties concern codes below 256, where the two views agree.
- JavaScript numbers are modelled as unbounded integers. Overflow and loss of precision in large doubles are left out. `Math.pow(-1, j)` is the exact sign.
- Hill: the key size is 2 or 3, which are the sizes the size selector offers. The general-size determinant and adjugate are modelled, but the inverse is proved correct only for these two sizes.
- Hill: the `TypeError` that `multiplyMatrices` raises on a short text is modelled as the outcome `Thrown`. The handler then has only cleared the error line.
- Hill.HillCipher.HandleMatrixChange: requires a row and column inside the key, which is what the rendered inputs offer. It does not model the creation of a missing row. It also does not model that the shallow copy writes into the old row array, which no later read can observe.
- Playfair: the empty string `''` that fills unplaced cells is modelled as the blank character `' '`. Neither is a letter, so lookups behave the same.
- Playfair.RoundTrip: stated in one direction only. Encryption inserts 'X's, so it cannot be inverted on arbitrary ciphertexts. The digraph-level lemmas state both directions.
- ExtendedVigenere.DecryptChar: the `(c − k) mod 256` law is stated only for key codes up to 256. For larger codes the JavaScript remainder goes negative, as `ExtendedVigenere.WideKeyExample` shows.
- Affine.RoundTrip: stated only for a ≥ 0, because the source's `modInverse` finds no inverse for a negative a (see "## Findings").
- Vigenere.RoundTrip, Affine.RoundTrip and Playfair.RoundTrip: these give back the normalized or prepared text, not the raw input. The ciphers drop non-letters and case on purpose.

## Findings

| source | as written | input that shows it | evidently intended | confidence | as-written member | corrected member |
|---|---|---|---|---|---|---|
| src/utils/cipherUtils.ts:14 | `modInverse` returns 1 when no inverse exists, so `invertMatrix` never returns `null` and the "not invertible" error is unreachable | the default key [[1,2],[3,4]], determinant −2 ≡ 24 | a key whose determinant has no inverse modulo 26 is refused | high (not executed) | Hill.DefaultKeyExample | MatrixAlgebra.InverseFixedCorrect |
| src/utils/cipherUtils.ts:70-75 | the 2×2 case already returns the adjugate, and `invertMatrix` transposes it again | [[1,2],[0,1]] gives [[1,0],[24,1]], which is not its inverse | [[1,24],[0,1]] | high (not executed) | MatrixAlgebra.Inverse2Counterexample | MatrixAlgebra.InverseFixedCorrect |
| src/components/HillCipher.tsx:67-76 | encryption multiplies the key by the matrix of the first n rows of the text and reads the result by columns | a nine-letter text under an invertible 3×3 key decrypts to its transpose; a text longer than n·n letters loses letters | every block of n letters is multiplied by the key, and decryption gives back the padded text | high (not executed) | Hill.RoundTripTransposes | Hill.RoundTripFixed |
| src/components/AffineCipher.tsx:60 | `modInverse(a, 26)` on a negative a always falls back to 1, although `validateA` accepts it | a = −7, b = 0: "B" encrypts to "T" and "T" decrypts to "T" | the inverse of a's residue modulo 26 | high (not executed) | Affine.NegativeAExample | Affine.RoundTripFixed |
