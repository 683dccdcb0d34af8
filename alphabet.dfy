/** The fixed 33-letter upper-case Russian alphabet of the cipher, the
    letter <-> ordinal index over it, and the Russian case folding that the
    validators apply.

    The letters are characters of Unicode: А..Я are U+0410..U+042F, а..я are
    U+0430..U+044F, and Ё (U+0401) and ё (U+0451) sit between Е/е and Ж/ж in
    alphabetical order. Letter, Ord and ToUpper are written on code points;
    AlphabetTable ties them to the literal alphabet string. */
module Alphabet {

  /** The ordered alphabet (numAlpha): the letter at position i has ordinal i. */
  const Letters: string := "АБВГДЕЁЖЗИЙКЛМНОПРСТУФХЦЧШЩЪЫЬЭЮЯ"

  /** The lower-case Russian letters, in the same order as Letters. */
  const LowerLetters: string := "абвгдеёжзийклмнопрстуфхцчшщъыьэюя"

  /** Number of letters, and so the modulus of the shift. */
  const Size: nat := 33

  /** A letter of the cipher's alphabet (upper case). */
  predicate IsLetter(c: char) {
    c == 'Ё' || 'А' <= c <= 'Я'
  }

  /** A lower-case Russian letter. */
  predicate IsLowerLetter(c: char) {
    c == 'ё' || 'а' <= c <= 'я'
  }

  /** A Russian letter in either case. */
  predicate IsRussianLetter(c: char) {
    IsLetter(c) || IsLowerLetter(c)
  }

  predicate AllLetters(s: string) {
    forall i :: 0 <= i < |s| ==> IsLetter(s[i])
  }

  /** Every entry is an ordinal, that is in [0, Size). */
  predicate InRange(v: seq<int>) {
    forall i :: 0 <= i < |v| ==> 0 <= v[i] < Size
  }

  /** Letter with a given ordinal (numAlpha[i]). */
  function Letter(i: int): (c: char)
    requires 0 <= i < Size
    ensures IsLetter(c)
  {
    if i < 6 then (0x410 + i) as char
    else if i == 6 then 'Ё'
    else (0x410 + i - 1) as char
  }

  /** Ordinal of a letter (alphaNum[c]). */
  function Ord(c: char): (i: int)
    requires IsLetter(c)
    ensures 0 <= i < Size && Letter(i) == c
  {
    if c == 'Ё' then 6
    else if c < 'Ж' then c as int - 0x410
    else c as int - 0x410 + 1
  }

  /** Letter and Ord are mutually inverse. */
  lemma OrdLetter(i: int)
    requires 0 <= i < Size
    ensures Ord(Letter(i)) == i
  {
  }

  /** The lower-case letter with a given position. */
  function LowerLetter(i: int): (c: char)
    requires 0 <= i < Size
    ensures IsLowerLetter(c)
  {
    if i < 6 then (0x430 + i) as char
    else if i == 6 then 'ё'
    else (0x430 + i - 1) as char
  }

  /** Russian upper-casing: a lower-case letter becomes the upper-case
      letter at the same position (ё becomes Ё), anything else is kept. */
  function ToUpper(c: char): (r: char)
    ensures IsLetter(r) <==> IsRussianLetter(c)
    ensures !IsLowerLetter(c) ==> r == c
  {
    if c == 'ё' then 'Ё'
    else if 'а' <= c <= 'я' then (c as int - 0x20) as char
    else c
  }

  /** The two alphabet strings list exactly the letters above, in order: the
      literal alphabet has Size letters and the letter at position i is Letter(i). */
  lemma AlphabetTable()
    ensures |Letters| == Size && |LowerLetters| == Size
    ensures forall i :: 0 <= i < Size ==> Letters[i] == Letter(i) && LowerLetters[i] == LowerLetter(i)
  {
  }

  /** Membership in the alphabet strings is IsLetter and IsLowerLetter. */
  lemma AlphabetMembers(c: char)
    ensures c in Letters <==> IsLetter(c)
    ensures c in LowerLetters <==> IsLowerLetter(c)
  {
    AlphabetTable();
    if IsLetter(c) {
      assert Letters[Ord(c)] == c;
    }
    if IsLowerLetter(c) {
      var i := Ord(ToUpper(c));
      assert LowerLetters[i] == c;
    }
  }

  /** The alphabet has no repeated letter. */
  lemma LettersDistinct()
    ensures forall i, j :: 0 <= i < j < |Letters| ==> Letters[i] != Letters[j]
  {
    AlphabetTable();
    forall i, j | 0 <= i < j < |Letters|
      ensures Letters[i] != Letters[j]
    {
      OrdLetter(i);
      OrdLetter(j);
    }
  }

  /** Case folding pairs the two tables position by position (so ё, at
      position 6, folds to Ё), and leaves the upper-case letters alone. */
  lemma FoldingTable()
    ensures forall i :: 0 <= i < Size ==> ToUpper(LowerLetter(i)) == Letter(i)
    ensures forall c :: IsLetter(c) ==> ToUpper(c) == c
  {
  }

  /** Only А and а fold to А. */
  lemma FirstLetterFolding(c: char)
    requires IsRussianLetter(c)
    ensures ToUpper(c) == 'А' <==> c == 'А' || c == 'а'
  {
  }

  /** Ordinals of a string of letters (convert: string -> vector). */
  function Ordinals(s: string): (v: seq<int>)
    requires AllLetters(s)
    ensures |v| == |s| && InRange(v)
  {
    seq(|s|, i requires 0 <= i < |s| => Ord(s[i]))
  }

  /** Letters of a vector of ordinals (convert: vector -> string). */
  function LettersOf(v: seq<int>): (s: string)
    requires InRange(v)
    ensures |s| == |v| && AllLetters(s)
  {
    seq(|v|, i requires 0 <= i < |v| => Letter(v[i]))
  }

  lemma LettersOfOrdinals(s: string)
    requires AllLetters(s)
    ensures LettersOf(Ordinals(s)) == s
  {
  }

  lemma OrdinalsOfLetters(v: seq<int>)
    requires InRange(v)
    ensures Ordinals(LettersOf(v)) == v
  {
    forall i | 0 <= i < |v|
      ensures Ordinals(LettersOf(v))[i] == v[i]
    {
      OrdLetter(v[i]);
    }
  }

  /** The string-to-vector conversion is injective. */
  lemma OrdinalsInjective(s: string, t: string)
    requires AllLetters(s) && AllLetters(t)
    ensures Ordinals(s) == Ordinals(t) <==> s == t
  {
    if Ordinals(s) == Ordinals(t) {
      LettersOfOrdinals(s);
      LettersOfOrdinals(t);
    }
  }
}
