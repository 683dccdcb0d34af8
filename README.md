# modAlphaCipher in Dafny

A model of the `modAlphaCipher` engine of TiMP_Lab4. It is a Gronsfeld
cipher, a Vigenère-family cipher with a numeric repeating key, over the fixed
33-letter upper-case Russian alphabet `АБВГДЕЁЖЗИЙКЛМНОПРСТУФХЦЧШЩЪЫЬЭЮЯ`.
The engine is built from a key string. It offers `encrypt` and `decrypt`,
and each of them either returns a string or fails with `cipher_error`.

- `alphabet.dfy` (module `Alphabet`): the alphabet string `numAlpha`
  (`Letters`), letter ↔ ordinal (`Ord`, `Letter`), Russian case folding
  (`ToUpper`, ё → Ё included), and the two `convert` directions as
  specification functions (`Ordinals`, `LettersOf`).
- `validation.dfy` (module `Validation`): the error outcome and the three
  validators. `CipherError` is `InvalidKey(fault)` or `InvalidText(fault)`
  and stands in for `cipher_error`. `GetValidKey` is strict and folds case.
  `GetValidOpenText` is lenient: it drops non-letters and folds case.
  `GetValidCipherText` is strict: upper-case alphabet letters only.
- `gronsfeld.dfy` (module `Gronsfeld`): the transform as a specification.
  Position i of the text is shifted by `key[i % |key|]` modulo 33: added for
  encryption, subtracted (as `+ 33 - k`) for decryption. The module also
  holds the laws of the transform.
- `cipher.dfy` (module `ModAlphaCipher`): the class `Cipher` with the fields
  `alphaNum` (map letter → ordinal) and `key` (ordinals). Both are `const`:
  no member of the header changes them after construction. The constructor
  builds the index in a loop and stores the validated key. The methods
  `ToOrdinals` and `ToLetters` are the two `convert` overloads. `Encrypt` and
  `Decrypt` update an ordinal vector position by position. `Create` models
  the constructor that throws on a bad key.
- `examples.dfy` (module `WorkedExample`): key "КЛЮЧ" with open text
  "Привет, Мир! 123". The text is cleaned to "ПРИВЕТМИР" and encrypts to
  "ЪЬЖЩПЮКАЫ".

The method bodies live in `modAlphaCipher.cpp`, which is not part of this
model. The behaviour is modelled from the declarations and doc-comments of
`files.h/modAlphaCipher.h`:

- A degenerate key is one made only of 'А' (every shift 0). The header names
  degeneracy as a reason for `getValidKey` to throw, so the check sits inside
  `GetValidKey`.
- Open-text cleaning keeps exactly the 66 Russian letters (33 upper case,
  33 lower case). Every other character, Latin letters included, is treated
  as a non-letter and dropped.
- The modulus of both transforms is the alphabet size, 33.

## Model

| member | source | states |
|---|---|---|
| Alphabet.Letter | files.h/modAlphaCipher.h:25 | the entry of the alphabet string at any position in [0,33) is an upper-case alphabet letter |
| Alphabet.Ord | files.h/modAlphaCipher.h:26 | the ordinal of an alphabet letter is in [0,33) and `Letter` gives the letter back |
| Alphabet.OrdLetter | files.h/modAlphaCipher.h:25-26 | `Ord(Letter(i)) == i` for every i in [0,33): index and alphabet are mutually inverse |
| Alphabet.AlphabetTable | files.h/modAlphaCipher.h:25 | the alphabet string has 33 letters, and the letter at position i is `Letter(i)` (same for the lower-case table) |
| Alphabet.AlphabetMembers | files.h/modAlphaCipher.h:25 | a character occurs in the alphabet string exactly when it is an upper-case Russian letter |
| Alphabet.LettersDistinct | files.h/modAlphaCipher.h:25 | no letter occurs twice in the alphabet string |
| Alphabet.ToUpper | files.h/modAlphaCipher.h:32 | folding yields an alphabet letter exactly for Russian letters of either case, and leaves every non-lower-case character unchanged |
| Alphabet.FoldingTable | files.h/modAlphaCipher.h:32 | each lower-case letter folds to the upper-case letter at the same position (ё to Ё, ordinal 6), and upper-case letters are fixed |
| Alphabet.FirstLetterFolding | files.h/modAlphaCipher.h:31-32 | among Russian letters only А and а fold to А |
| Alphabet.Ordinals | files.h/modAlphaCipher.h:28 | the string → vector conversion keeps the length and yields ordinals in [0,33) |
| Alphabet.LettersOf | files.h/modAlphaCipher.h:29 | the vector → string conversion keeps the length and yields alphabet letters only |
| Alphabet.LettersOfOrdinals | files.h/modAlphaCipher.h:28-29 | converting a letter string to ordinals and back gives the string |
| Alphabet.OrdinalsOfLetters | files.h/modAlphaCipher.h:28-29 | converting an ordinal vector to letters and back gives the vector |
| Alphabet.OrdinalsInjective | files.h/modAlphaCipher.h:28 | two letter strings have the same ordinals exactly when they are equal |
| Validation.UpperAll | files.h/modAlphaCipher.h:32 | upper-casing keeps the length; a character becomes an alphabet letter exactly when it is a Russian letter; a lower-case letter becomes the upper-case letter at its own position; every other character is kept |
| Validation.IsDegenerate | files.h/modAlphaCipher.h:31-34 | a key string is degenerate exactly when all its characters are alphabet letters with ordinal 0, that is every shift is 0 |
| Validation.GetValidKey | files.h/modAlphaCipher.h:30-36 | an empty key is refused as empty, and a key with a non-Russian character as foreign; a key is accepted exactly when it is non-empty, all Russian letters, and has a letter other than А/а; the accepted key is the input with upper case kept, lower case folded, same length, not degenerate |
| Validation.DegenerateKeyRefused | files.h/modAlphaCipher.h:31-34 | a non-empty key of А/а only is refused with the degenerate-key error |
| Validation.Clean | files.h/modAlphaCipher.h:39-40 | the cleaned text has alphabet letters only and is no longer than the input |
| Validation.GetValidOpenText | files.h/modAlphaCipher.h:37-44 | accepted exactly when the input has a Russian letter; otherwise refused with the empty-text error; an accepted text is non-empty, all alphabet letters, and no longer than the input |
| Validation.GetValidCipherText | files.h/modAlphaCipher.h:45-50 | accepted exactly when the input is non-empty and all upper-case alphabet letters, and then returned unchanged; empty input and foreign characters get their own errors |
| Validation.CleanEmpty | files.h/modAlphaCipher.h:38-42 | cleaning leaves nothing exactly when no character is a Russian letter |
| Validation.CleanAppend | files.h/modAlphaCipher.h:39-40 | cleaning distributes over concatenation, so it works character by character and keeps the order |
| Validation.CleanRussian | files.h/modAlphaCipher.h:40 | a text of Russian letters is cleaned to its upper-casing |
| Validation.CleanNone | files.h/modAlphaCipher.h:39 | a text with no Russian letter is cleaned to the empty string |
| Validation.CleanLetters | files.h/modAlphaCipher.h:39-40 | a text of upper-case alphabet letters is its own cleaning |
| Validation.CleanIdempotent | files.h/modAlphaCipher.h:39-40 | cleaning twice is cleaning once |
| Validation.CleanFixedPoint | files.h/modAlphaCipher.h:39-40 | cleaning changes nothing exactly when the text is all upper-case alphabet letters |
| Validation.CipherTextIsOpenText | files.h/modAlphaCipher.h:37-50 | every accepted cipher text is accepted unchanged as an open text |
| Validation.CleanedIsCipherText | files.h/modAlphaCipher.h:37-50 | every accepted open text, once cleaned, is accepted as a cipher text |
| Validation.LowerCaseAsymmetry | files.h/modAlphaCipher.h:40-46 | a text that starts with a lower-case letter is refused as cipher text but accepted as open text with that letter folded |
| Validation.LowerCaseExample | files.h/modAlphaCipher.h:45-49 | "прИВЕТ" is refused as cipher text and cleaned to "ПРИВЕТ" as open text |
| Gronsfeld.Encipher | files.h/modAlphaCipher.h:58-69 | encryption keeps the length and yields alphabet letters only |
| Gronsfeld.Decipher | files.h/modAlphaCipher.h:70-76 | decryption keeps the length and yields alphabet letters only |
| Gronsfeld.ShiftCancels | files.h/modAlphaCipher.h:16-18 | adding and then subtracting a shift modulo 33 gives the ordinal back, in either order |
| Gronsfeld.DecipherEncipher | files.h/modAlphaCipher.h:16-18 | decryption undoes encryption under the same key |
| Gronsfeld.EncipherDecipher | files.h/modAlphaCipher.h:16-18 | encryption undoes decryption under the same key |
| Gronsfeld.EncipherInjective | files.h/modAlphaCipher.h:16-18 | two texts encrypt to the same cipher text exactly when they are equal |
| Gronsfeld.ZeroKeyIsIdentity | files.h/modAlphaCipher.h:31 | a key of zero shifts leaves every text unchanged |
| Gronsfeld.KeyChangesSomeText | files.h/modAlphaCipher.h:31-34 | an accepted key changes at least one text of its own length |
| Gronsfeld.LongKeyPrefix | files.h/modAlphaCipher.h:16-18 | a key at least as long as the text is used only in its first shifts |
| Gronsfeld.ShiftPeriodic | files.h/modAlphaCipher.h:16-18 | the shift read cyclically repeats after one key length |
| Gronsfeld.EncipherRepeats | files.h/modAlphaCipher.h:16-18 | after one key length the text is encrypted as if it started anew |
| Gronsfeld.ValidKeyOrdinals | files.h/modAlphaCipher.h:27-36 | the ordinals of an accepted key are non-empty, in [0,33), and have a non-zero shift |
| Gronsfeld.DegenerateOrdinals | files.h/modAlphaCipher.h:31 | a letter key is all 'А' exactly when all its shifts are 0 |
| ModAlphaCipher.BuildIndex | files.h/modAlphaCipher.h:25-26 | the index built from the alphabet string has exactly the alphabet letters as keys, each mapped to its ordinal |
| ModAlphaCipher.Cipher.constructor | files.h/modAlphaCipher.h:53-57 | the new object holds a valid index, and as key the ordinals of the validated key string |
| ModAlphaCipher.Cipher.ToOrdinals | files.h/modAlphaCipher.h:28 | converting through the index gives the ordinals of the string |
| ModAlphaCipher.Cipher.ToLetters | files.h/modAlphaCipher.h:29 | converting through the alphabet string gives the letters of the vector |
| ModAlphaCipher.Cipher.Encrypt | files.h/modAlphaCipher.h:58-69 | fails exactly when open-text validation fails, with its error; otherwise returns the encryption of the cleaned text under the stored key |
| ModAlphaCipher.Cipher.Decrypt | files.h/modAlphaCipher.h:70-76 | fails exactly when cipher-text validation fails, with its error; otherwise returns the decryption of the text under the stored key |
| ModAlphaCipher.Create | files.h/modAlphaCipher.h:53-57 | fails exactly when key validation fails, with its error; otherwise returns a fresh valid cipher holding the key's ordinals |
| ModAlphaCipher.EncryptThenDecrypt | files.h/modAlphaCipher.h:58-76 | decrypting the encryption of any text gives exactly the result of open-text validation of that text: the cleaned text, or its error |
| WorkedExample.KeyExample | files.h/modAlphaCipher.h:30-36 | "КЛЮЧ" is accepted unchanged with shifts 11, 12, 31, 24 |
| WorkedExample.CleanPrivet | files.h/modAlphaCipher.h:37-43 | "Привет, " is cleaned to "ПРИВЕТ" |
| WorkedExample.CleanMir | files.h/modAlphaCipher.h:37-43 | "Мир! 123" is cleaned to "МИР" |
| WorkedExample.CleanExample | files.h/modAlphaCipher.h:37-44 | "Привет, Мир! 123" is accepted as open text and cleaned to "ПРИВЕТМИР" |
| WorkedExample.TransformExample | files.h/modAlphaCipher.h:58-76 | under shifts 11, 12, 31, 24, "ПРИВЕТМИР" encrypts to "ЪЬЖЩПЮКАЫ", which decrypts back |

## Left out

- Byte-level text encoding: the UTF-8 `std::string` ↔ `wstring` conversion
  through `<codecvt>` and `<locale>` is not modelled. Strings are sequences
  of Unicode characters.
- The key type of `alphaNum` in the header is `char` while the alphabet is a
  `wstring`. The model keys the index by character. It does not model that
  type mismatch.
- Locale-driven case folding is replaced by an explicit Russian mapping
  (а..я → А..Я, ё → Ё). Other scripts are never folded. No result of the
  model depends on folding them, because a non-Russian character is either
  refused or dropped.
- The `cipher_error : std::invalid_argument` hierarchy and its message
  strings are left out. Failures are the values `InvalidKey(fault)` and
  `InvalidText(fault)`.
- The deleted default constructor is a C++ artefact with no behaviour.
- Cipher.ToOrdinals requires a string of alphabet letters. Its three
  callers (the constructor, Encrypt and Decrypt) pass only validated text.
  If the lookup uses `std::map`'s `operator[]`, any other character would
  insert a zero entry; that path is not modelled.
- A command-line, file or console front end is not in the header. It would
  be pure I/O.
- The method bodies (`modAlphaCipher.cpp`) are not part of this model. Where
  the header does not fix a detail, the model follows the behaviour its
  comments describe, as stated above.
