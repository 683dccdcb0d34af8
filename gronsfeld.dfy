/** The Gronsfeld transform as a specification: per-position additive shift of
    ordinals by a repeating key, modulo the alphabet size, and its inverse. */
module Gronsfeld {
  import opened Alphabet
  import opened Validation

  /** A vector of shifts that can drive the transform. */
  predicate WellFormed(key: seq<int>) {
    |key| > 0 && InRange(key)
  }

  /** A key the cipher accepts: at least one shift differs from 0. */
  predicate IsKey(key: seq<int>) {
    WellFormed(key) && exists i :: 0 <= i < |key| && key[i] != 0
  }

  /** The shift applied at position i: the key is read cyclically. */
  function ShiftAt(key: seq<int>, i: nat): int
    requires |key| > 0
  {
    key[i % |key|]
  }

  /** Encryption of a text of letters. */
  function Encipher(key: seq<int>, p: string): (c: string)
    requires WellFormed(key) && AllLetters(p)
    ensures |c| == |p| && AllLetters(c)
  {
    seq(|p|, i requires 0 <= i < |p| => Letter((Ord(p[i]) + ShiftAt(key, i)) % Size))
  }

  /** Decryption of a text of letters. */
  function Decipher(key: seq<int>, c: string): (p: string)
    requires WellFormed(key) && AllLetters(c)
    ensures |p| == |c| && AllLetters(p)
  {
    seq(|c|, i requires 0 <= i < |c| => Letter((Ord(c[i]) + Size - ShiftAt(key, i)) % Size))
  }

  /** Subtracting a shift after adding it, modulo Size, gives the ordinal back. */
  lemma ShiftCancels(x: int, k: int)
    requires 0 <= x < Size && 0 <= k < Size
    ensures ((x + k) % Size + Size - k) % Size == x
    ensures ((x + Size - k) % Size + k) % Size == x
  {
  }

  /** Decryption undoes encryption. */
  lemma DecipherEncipher(key: seq<int>, p: string)
    requires WellFormed(key) && AllLetters(p)
    ensures Decipher(key, Encipher(key, p)) == p
  {
    var c := Encipher(key, p);
    forall i | 0 <= i < |p|
      ensures Decipher(key, c)[i] == p[i]
    {
      var k := ShiftAt(key, i);
      ShiftCancels(Ord(p[i]), k);
    }
  }

  /** Encryption undoes decryption. */
  lemma EncipherDecipher(key: seq<int>, c: string)
    requires WellFormed(key) && AllLetters(c)
    ensures Encipher(key, Decipher(key, c)) == c
  {
    var p := Decipher(key, c);
    forall i | 0 <= i < |c|
      ensures Encipher(key, p)[i] == c[i]
    {
      var k := ShiftAt(key, i);
      ShiftCancels(Ord(c[i]), k);
    }
  }

  /** Different texts encrypt differently under the same key. */
  lemma EncipherInjective(key: seq<int>, p: string, q: string)
    requires WellFormed(key) && AllLetters(p) && AllLetters(q)
    ensures Encipher(key, p) == Encipher(key, q) <==> p == q
  {
    if Encipher(key, p) == Encipher(key, q) {
      DecipherEncipher(key, p);
      DecipherEncipher(key, q);
    }
  }

  /** An all-zero key would leave every text unchanged: this is why it is refused. */
  lemma ZeroKeyIsIdentity(key: seq<int>, p: string)
    requires WellFormed(key) && forall i :: 0 <= i < |key| ==> key[i] == 0
    requires AllLetters(p)
    ensures Encipher(key, p) == p
  {
  }

  /** A key the cipher accepts changes some text of the key's length. */
  lemma KeyChangesSomeText(key: seq<int>)
    requires IsKey(key)
    ensures exists p :: |p| == |key| && AllLetters(p) && Encipher(key, p) != p
  {
    var j :| 0 <= j < |key| && key[j] != 0;
    var p := seq(|key|, _ => 'А');
    ModSmall(j, |key|);
    assert Encipher(key, p)[j] != p[j];
  }

  /** A key at least as long as the text is used only in its first |p| shifts. */
  lemma LongKeyPrefix(key: seq<int>, p: string)
    requires WellFormed(key) && AllLetters(p)
    requires 0 < |p| <= |key|
    ensures Encipher(key, p) == Encipher(key[..|p|], p)
  {
    forall i | 0 <= i < |p|
      ensures ShiftAt(key, i) == ShiftAt(key[..|p|], i)
    {
      ModSmall(i, |key|);
      ModSmall(i, |p|);
    }
  }

  /** Euclidean division is unique. */
  lemma ModUnique(x: int, q: int, n: int, r: int)
    requires 0 < n && 0 <= r < n && x == q * n + r
    ensures x % n == r
  {
    var d := q - x / n;
    assert d * n == x % n - r;
    MulBound(d, n);
  }

  /** A non-zero multiple of n is at least n away from 0. */
  lemma {:induction false} MulBound(d: int, n: int)
    requires 0 < n
    ensures d > 0 ==> d * n >= n
    ensures d < 0 ==> d * n <= -n
    decreases if d < 0 then -d else d
  {
    if d > 1 {
      MulBound(d - 1, n);
      assert d * n == (d - 1) * n + n;
    } else if d < -1 {
      MulBound(d + 1, n);
      assert d * n == (d + 1) * n - n;
    }
  }

  /** A number below the modulus is its own remainder. */
  lemma ModSmall(i: int, n: int)
    requires 0 <= i < n
    ensures i % n == i
  {
  }

  /** Reading a key cyclically from one period on gives the same shifts. */
  lemma ShiftPeriodic(key: seq<int>, i: nat)
    requires |key| > 0
    ensures ShiftAt(key, |key| + i) == ShiftAt(key, i)
  {
    ModUnique(|key| + i, i / |key| + 1, |key|, i % |key|);
  }

  /** A short key repeats: after one full period the text is encrypted as
      if it started anew. */
  lemma {:induction false} EncipherRepeats(key: seq<int>, p: string, q: string)
    requires WellFormed(key) && AllLetters(p) && AllLetters(q)
    requires |p| == |key|
    ensures Encipher(key, p + q) == Encipher(key, p) + Encipher(key, q)
  {
    var lhs, rhs := Encipher(key, p + q), Encipher(key, p) + Encipher(key, q);
    forall i | 0 <= i < |p + q|
      ensures lhs[i] == rhs[i]
    {
      if i >= |p| {
        ShiftPeriodic(key, i - |p|);
        assert (p + q)[i] == q[i - |p|];
      }
    }
  }

  /** A key validated from a string has ordinals forming a key the cipher
      accepts. */
  lemma ValidKeyOrdinals(s: string)
    requires GetValidKey(s).Success?
    ensures IsKey(Ordinals(GetValidKey(s).value))
  {
    var k := GetValidKey(s).value;
    var j :| 0 <= j < |k| && k[j] != 'А';
    assert Ordinals(k)[j] != 0;
  }

  /** A key string is degenerate (all 'А') exactly when all its shifts are 0. */
  lemma DegenerateOrdinals(s: string)
    requires AllLetters(s)
    ensures IsDegenerate(s) <==> forall i :: 0 <= i < |s| ==> Ordinals(s)[i] == 0
  {
    forall i | 0 <= i < |s|
      ensures s[i] == 'А' <==> Ordinals(s)[i] == 0
    {
      assert Letter(0) == 'А';
    }
  }
}
