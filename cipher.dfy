/** The cipher object (modAlphaCipher): an alphabet index built once, a key
    fixed at construction, and the encrypt and decrypt transforms, which
    validate their input and then shift it position by position. */
module ModAlphaCipher {
  import opened Alphabet
  import opened Validation
  import opened Gronsfeld

  /** alphaNum: exactly the alphabet letters are keys, each mapped to its ordinal. */
  ghost predicate IsAlphabetIndex(m: map<char, int>) {
    (forall c :: c in m <==> IsLetter(c)) &&
    (forall c :: c in m ==> m[c] == Ord(c))
  }

  /** The index alphaNum, filled from the alphabet string letter by letter. */
  method BuildIndex() returns (index: map<char, int>)
    ensures IsAlphabetIndex(index)
  {
    AlphabetTable();
    index := map[];
    for i := 0 to |Letters|
      invariant forall c :: c in index ==> IsLetter(c) && Ord(c) < i && index[c] == Ord(c)
      invariant forall c :: IsLetter(c) && Ord(c) < i ==> c in index
    {
      OrdLetter(i);
      index := index[Letters[i] := i];
    }
  }

  class Cipher {
    /** Ordinal by letter; fixed once built. */
    const alphaNum: map<char, int>
    /** The validated key as ordinals; fixed at construction. */
    const key: seq<int>

    ghost predicate Valid() {
      IsAlphabetIndex(alphaNum) && IsKey(key)
    }

    /** Builds the index from the alphabet string and stores the validated key. */
    constructor (skey: string)
      requires GetValidKey(skey).Success?
      ensures Valid()
      ensures key == Ordinals(GetValidKey(skey).value)
    {
      var index := BuildIndex();
      var ordinals := ToOrdinals(index, GetValidKey(skey).value);
      alphaNum, key := index, ordinals;
      ValidKeyOrdinals(skey);
    }

    /** convert: string -> vector, through the index. */
    static method ToOrdinals(alphaNum: map<char, int>, s: string) returns (v: seq<int>)
      requires IsAlphabetIndex(alphaNum) && AllLetters(s)
      ensures v == Ordinals(s)
    {
      v := [];
      for i := 0 to |s|
        invariant |v| == i
        invariant forall j :: 0 <= j < i ==> v[j] == Ord(s[j])
      {
        v := v + [alphaNum[s[i]]];
      }
    }

    /** convert: vector -> string, through the alphabet string. */
    method ToLetters(v: seq<int>) returns (s: string)
      requires InRange(v)
      ensures s == LettersOf(v)
    {
      AlphabetTable();
      s := [];
      for i := 0 to |v|
        invariant |s| == i
        invariant forall j :: 0 <= j < i ==> s[j] == Letter(v[j])
      {
        s := s + [Letters[v[i]]];
      }
    }

    /** Encryption: the cleaned open text shifted forward by the key. */
    method Encrypt(openText: string) returns (r: Result<string>)
      requires Valid()
      ensures r.Success? <==> GetValidOpenText(openText).Success?
      ensures r.Failure? ==> r.error == GetValidOpenText(openText).error
      ensures r.Success? ==> r.value == Encipher(key, GetValidOpenText(openText).value)
    {
      var cleaned := GetValidOpenText(openText);
      if cleaned.Failure? {
        return Failure(cleaned.error);
      }
      var work := ToOrdinals(alphaNum, cleaned.value);
      ghost var plain := work;
      for i := 0 to |work|
        invariant |work| == |plain|
        invariant forall j :: 0 <= j < i ==> work[j] == (plain[j] + ShiftAt(key, j)) % Size
        invariant forall j :: i <= j < |work| ==> work[j] == plain[j]
      {
        work := work[i := (work[i] + key[i % |key|]) % Size];
      }
      var text := ToLetters(work);
      r := Success(text);
    }

    /** Decryption: the validated cipher text shifted back by the key. */
    method Decrypt(cipherText: string) returns (r: Result<string>)
      requires Valid()
      ensures r.Success? <==> GetValidCipherText(cipherText).Success?
      ensures r.Failure? ==> r.error == GetValidCipherText(cipherText).error
      ensures r.Success? ==> r.value == Decipher(key, cipherText)
    {
      var checked := GetValidCipherText(cipherText);
      if checked.Failure? {
        return Failure(checked.error);
      }
      var work := ToOrdinals(alphaNum, checked.value);
      ghost var enciphered := work;
      for i := 0 to |work|
        invariant |work| == |enciphered|
        invariant forall j :: 0 <= j < i ==> work[j] == (enciphered[j] + Size - ShiftAt(key, j)) % Size
        invariant forall j :: i <= j < |work| ==> work[j] == enciphered[j]
      {
        work := work[i := (work[i] + Size - key[i % |key|]) % Size];
      }
      var text := ToLetters(work);
      r := Success(text);
    }
  }

  /** The throwing constructor: either the key's validation error or a new
      cipher holding the key. */
  method Create(skey: string) returns (r: Result<Cipher>)
    ensures r.Failure? <==> GetValidKey(skey).Failure?
    ensures r.Failure? ==> r.error == GetValidKey(skey).error
    ensures r.Success? ==> fresh(r.value) && r.value.Valid()
    ensures r.Success? ==> r.value.key == Ordinals(GetValidKey(skey).value)
  {
    var checked := GetValidKey(skey);
    if checked.Failure? {
      return Failure(checked.error);
    }
    var cipher := new Cipher(skey);
    r := Success(cipher);
  }

  /** Decrypting what was encrypted gives the cleaned open text, and an open
      text that encryption refuses is refused with the same error. */
  method EncryptThenDecrypt(cipher: Cipher, openText: string) returns (r: Result<string>)
    requires cipher.Valid()
    ensures r == GetValidOpenText(openText)
  {
    var c := cipher.Encrypt(openText);
    if c.Failure? {
      return Failure(c.error);
    }
    r := cipher.Decrypt(c.value);
    DecipherEncipher(cipher.key, GetValidOpenText(openText).value);
  }
}
