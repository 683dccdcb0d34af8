/** The three input validators of the cipher (getValidKey, getValidOpenText,
    getValidCipherText) and the error outcome that stands in for cipher_error. */
module Validation {
  import opened Alphabet

  /** Why a key was refused. */
  datatype KeyFault = EmptyKey | ForeignKeySymbol | DegenerateKey

  /** Why a text was refused. */
  datatype TextFault = EmptyText | ForeignTextSymbol

  /** The two kinds of cipher_error. */
  datatype CipherError = InvalidKey(keyFault: KeyFault) | InvalidText(textFault: TextFault)

  datatype Result<T> = Success(value: T) | Failure(error: CipherError)

  /** Upper-cases every character of s: exactly the Russian letters become
      alphabet letters, a lower-case letter becomes the letter at its own
      position, and every other character is kept. */
  function UpperAll(s: string): (r: string)
    ensures |r| == |s|
    ensures forall i :: 0 <= i < |s| ==> (IsLetter(r[i]) <==> IsRussianLetter(s[i]))
    ensures forall i :: 0 <= i < |s| ==> !IsLowerLetter(s[i]) ==> r[i] == s[i]
    ensures forall i :: 0 <= i < |s| ==> IsLowerLetter(s[i]) ==> IsLetter(r[i]) && LowerLetter(Ord(r[i])) == s[i]
  {
    seq(|s|, i requires 0 <= i < |s| => ToUpper(s[i]))
  }

  /** A key string made of the first letter only: it holds exactly when
      every character is an alphabet letter whose shift is 0. */
  predicate IsDegenerate(s: string): (b: bool)
    ensures b <==> AllLetters(s) && forall i :: 0 <= i < |s| ==> Ord(s[i]) == 0
  {
    assert Letter(0) == 'А';
    forall i :: 0 <= i < |s| ==> s[i] == 'А'
  }

  /** Key validation: refuses the empty key, a key with a character that is
      not a Russian letter, and a key of 'А's only; otherwise returns the key
      upper-cased. */
  function GetValidKey(s: string): (r: Result<string>)
    ensures s == [] ==> r == Failure(InvalidKey(EmptyKey))
    ensures s != [] && (exists i :: 0 <= i < |s| && !IsRussianLetter(s[i])) ==>
              r == Failure(InvalidKey(ForeignKeySymbol))
    ensures r.Success? <==>
              s != [] &&
              (forall i :: 0 <= i < |s| ==> IsRussianLetter(s[i])) &&
              (exists i :: 0 <= i < |s| && s[i] != 'А' && s[i] != 'а')
    ensures r.Failure? ==> r.error.InvalidKey?
    ensures r.Success? ==> |r.value| == |s| && AllLetters(r.value) && !IsDegenerate(r.value)
    ensures r.Success? ==> forall i :: 0 <= i < |s| ==>
              (IsLetter(s[i]) ==> r.value[i] == s[i]) &&
              (IsLowerLetter(s[i]) ==> r.value[i] == Letter(Ord(ToUpper(s[i]))) && LowerLetter(Ord(r.value[i])) == s[i])
  {
    if s == [] then Failure(InvalidKey(EmptyKey))
    else
      var tmp := UpperAll(s);
      assert forall i :: 0 <= i < |s| ==> (IsLetter(tmp[i]) <==> IsRussianLetter(s[i]));
      FoldingTable();
      if !AllLetters(tmp) then Failure(InvalidKey(ForeignKeySymbol))
      else if IsDegenerate(tmp) then Failure(InvalidKey(DegenerateKey))
      else Success(tmp)
  }

  /** A non-empty key of А's and а's only is refused as degenerate. */
  lemma DegenerateKeyRefused(s: string)
    requires s != [] && forall i :: 0 <= i < |s| ==> s[i] == 'А' || s[i] == 'а'
    ensures GetValidKey(s) == Failure(InvalidKey(DegenerateKey))
  {
    assert IsRussianLetter('А') && IsRussianLetter('а');
    assert IsDegenerate(UpperAll(s));
  }

  /** Open-text cleaning: drops every character that is not a Russian letter
      and upper-cases the letters, keeping their order. */
  function Clean(s: string): (r: string)
    ensures AllLetters(r) && |r| <= |s|
  {
    if s == [] then []
    else (if IsRussianLetter(s[0]) then [ToUpper(s[0])] else []) + Clean(s[1..])
  }

  /** Open-text validation: the cleaned text, refused when it is empty. */
  function GetValidOpenText(s: string): (r: Result<string>)
    ensures r.Success? <==> exists i :: 0 <= i < |s| && IsRussianLetter(s[i])
    ensures r.Failure? ==> r.error == InvalidText(EmptyText)
    ensures r.Success? ==> r.value != [] && AllLetters(r.value) && |r.value| <= |s|
  {
    var tmp := Clean(s);
    CleanEmpty(s);
    if tmp == [] then Failure(InvalidText(EmptyText)) else Success(tmp)
  }

  /** Cipher-text validation: the text unchanged when it is a non-empty
      string of upper-case letters of the alphabet; no cleaning, no folding. */
  function GetValidCipherText(s: string): (r: Result<string>)
    ensures r.Success? <==> s != [] && AllLetters(s)
    ensures r.Success? ==> r.value == s
    ensures s == [] ==> r == Failure(InvalidText(EmptyText))
    ensures s != [] && !AllLetters(s) ==> r == Failure(InvalidText(ForeignTextSymbol))
  {
    if s == [] then Failure(InvalidText(EmptyText))
    else if !AllLetters(s) then Failure(InvalidText(ForeignTextSymbol))
    else Success(s)
  }

  /** Cleaning removes everything exactly when no character is a Russian letter. */
  lemma {:induction false} CleanEmpty(s: string)
    ensures Clean(s) == [] <==> forall i :: 0 <= i < |s| ==> !IsRussianLetter(s[i])
  {
    if s != [] {
      CleanEmpty(s[1..]);
      assert forall i :: 1 <= i < |s| ==> s[i] == s[1..][i - 1];
    }
  }

  /** Cleaning distributes over concatenation. */
  lemma {:induction false} CleanAppend(a: string, b: string)
    ensures Clean(a + b) == Clean(a) + Clean(b)
  {
    if a == [] {
      assert a + b == b;
    } else {
      var ab := a + b;
      assert ab[0] == a[0] && ab[1..] == a[1..] + b;
      CleanAppend(a[1..], b);
      var head := if IsRussianLetter(a[0]) then [ToUpper(a[0])] else [];
      assert Clean(ab) == head + Clean(ab[1..]);
      assert Clean(a) == head + Clean(a[1..]);
    }
  }

  /** A text already made of upper-case letters is its own cleaning. */
  lemma {:induction false} CleanLetters(s: string)
    requires AllLetters(s)
    ensures Clean(s) == s
  {
    if s != [] {
      CleanLetters(s[1..]);
    }
  }

  /** A text of Russian letters only is cleaned to its upper-casing. */
  lemma {:induction false} CleanRussian(s: string)
    requires forall i :: 0 <= i < |s| ==> IsRussianLetter(s[i])
    ensures Clean(s) == UpperAll(s)
  {
    if s != [] {
      CleanRussian(s[1..]);
      assert UpperAll(s) == [ToUpper(s[0])] + UpperAll(s[1..]);
    }
  }

  /** A text without Russian letters is cleaned away entirely. */
  lemma CleanNone(s: string)
    requires forall i :: 0 <= i < |s| ==> !IsRussianLetter(s[i])
    ensures Clean(s) == []
  {
    CleanEmpty(s);
  }

  /** Cleaning is idempotent. */
  lemma CleanIdempotent(s: string)
    ensures Clean(Clean(s)) == Clean(s)
  {
    CleanLetters(Clean(s));
  }

  /** Cleaning changes nothing exactly when the text is all upper-case letters. */
  lemma CleanFixedPoint(s: string)
    ensures Clean(s) == s <==> AllLetters(s)
  {
    if AllLetters(s) {
      CleanLetters(s);
    }
  }

  /** Every accepted cipher text is accepted, unchanged, as an open text. */
  lemma CipherTextIsOpenText(s: string)
    requires GetValidCipherText(s).Success?
    ensures GetValidOpenText(s) == GetValidCipherText(s)
  {
    CleanLetters(s);
  }

  /** A cleaned open text is a valid cipher text. */
  lemma CleanedIsCipherText(s: string)
    requires GetValidOpenText(s).Success?
    ensures GetValidCipherText(GetValidOpenText(s).value) == GetValidOpenText(s)
  {
  }

  /** The asymmetry of the two text validators: a text that starts with a
      lower-case letter is refused as a cipher text, while as an open text
      it is accepted with that letter folded. */
  lemma LowerCaseAsymmetry(c: char, rest: string)
    requires IsLowerLetter(c) && AllLetters(rest)
    ensures GetValidCipherText([c] + rest) == Failure(InvalidText(ForeignTextSymbol))
    ensures GetValidOpenText([c] + rest) == Success([ToUpper(c)] + rest)
  {
    assert !IsLetter(([c] + rest)[0]);
    assert ([c] + rest)[1..] == rest;
    CleanLetters(rest);
  }

  /** The instance "прИВЕТ": refused as a cipher text, "ПРИВЕТ" as an open text. */
  lemma LowerCaseExample()
    ensures GetValidCipherText("прИВЕТ") == Failure(InvalidText(ForeignTextSymbol))
    ensures GetValidOpenText("прИВЕТ") == Success("ПРИВЕТ")
  {
    var tail := "рИВЕТ";
    assert "прИВЕТ" == ['п'] + tail;
    assert tail == ['р'] + "ИВЕТ";
    assert "ПРИВЕТ" == ['П'] + (['Р'] + "ИВЕТ");
    LowerCaseAsymmetry('р', "ИВЕТ");
    assert !IsLetter("прИВЕТ"[0]);
    assert Clean("прИВЕТ") == ['П'] + Clean(tail);
  }
}
