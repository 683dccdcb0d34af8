/** A worked example of the whole cipher on concrete strings: key "КЛЮЧ" and
    open text "Привет, Мир! 123". */
module WorkedExample {
  import opened Alphabet
  import opened Validation
  import opened Gronsfeld

  /** The key is accepted as it is and its shifts are 11, 12, 31, 24. */
  lemma KeyExample()
    ensures GetValidKey("КЛЮЧ") == Success("КЛЮЧ")
    ensures Ordinals("КЛЮЧ") == [11, 12, 31, 24]
  {
    assert UpperAll("КЛЮЧ") == "КЛЮЧ";
    assert "КЛЮЧ"[0] != 'А';
  }

  lemma CleanPrivet()
    ensures Clean("Привет, ") == "ПРИВЕТ"
  {
    assert "Привет, " == "Привет" + ", ";
    CleanAppend("Привет", ", ");
    CleanRussian("Привет");
    CleanNone(", ");
    assert UpperAll("Привет") == "ПРИВЕТ";
  }

  lemma CleanMir()
    ensures Clean("Мир! 123") == "МИР"
  {
    assert "Мир! 123" == "Мир" + "! 123";
    CleanAppend("Мир", "! 123");
    CleanRussian("Мир");
    CleanNone("! 123");
    assert UpperAll("Мир") == "МИР";
  }

  /** The text is cleaned to "ПРИВЕТМИР": punctuation, blanks and digits go. */
  lemma CleanExample()
    ensures GetValidOpenText("Привет, Мир! 123") == Success("ПРИВЕТМИР")
  {
    assert "Привет, Мир! 123" == "Привет, " + "Мир! 123";
    assert "ПРИВЕТ" + "МИР" == "ПРИВЕТМИР";
    CleanPrivet();
    CleanMir();
    CleanAppend("Привет, ", "Мир! 123");
  }

  /** "ПРИВЕТМИР" encrypts to "ЪЬЖЩПЮКАЫ" and decrypts back. */
  lemma TransformExample()
    ensures Encipher([11, 12, 31, 24], "ПРИВЕТМИР") == "ЪЬЖЩПЮКАЫ"
    ensures Decipher([11, 12, 31, 24], "ЪЬЖЩПЮКАЫ") == "ПРИВЕТМИР"
  {
    DecipherEncipher([11, 12, 31, 24], "ПРИВЕТМИР");
  }
}
