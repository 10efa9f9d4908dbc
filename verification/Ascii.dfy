/** Upper case of ASCII letters; other characters stay as they are. */
module Ascii {
  function UpperChar(c: char): char {
    if 'a' <= c <= 'z' then c - 'a' + 'A' else c
  }

  function Upper(s: string): (r: string)
    ensures |r| == |s| && forall i :: 0 <= i < |s| ==> r[i] == UpperChar(s[i])
  {
    seq(|s|, i requires 0 <= i < |s| => UpperChar(s[i]))
  }

  // ---------------------------------------------------------------------------
  // The same text up to case
  // ---------------------------------------------------------------------------

  const SMALL := "abcdefghijklmnopqrstuvwxyz"
  const CAPITAL := "ABCDEFGHIJKLMNOPQRSTUVWXYZ"

  /** c is the letter number i of the alphabet, small or capital. */
  predicate IsLetter(c: char, i: nat) {
    i < 26 && (c == SMALL[i] || c == CAPITAL[i])
  }

  ghost predicate SameLetter(a: char, b: char) {
    a == b || exists i: nat :: IsLetter(a, i) && IsLetter(b, i)
  }

  ghost predicate SameUpToCase(s: string, t: string) {
    |s| == |t| && forall i :: 0 <= i < |s| ==> SameLetter(s[i], t[i])
  }

  lemma Alphabets(i: nat)
    requires i < 26
    ensures SMALL[i] as int == 'a' as int + i && CAPITAL[i] as int == 'A' as int + i
  {
  }

  /** Each small letter becomes its capital, and every other character stays. */
  lemma UpperByTable(c: char)
    ensures forall i: nat :: i < 26 && c == SMALL[i] ==> UpperChar(c) == CAPITAL[i]
    ensures c !in SMALL ==> UpperChar(c) == c
  {
    forall i: nat | i < 26 && c == SMALL[i] ensures UpperChar(c) == CAPITAL[i] {
      Alphabets(i);
    }
    if 'a' <= c <= 'z' {
      var i := c as int - 'a' as int;
      Alphabets(i);
      assert c == SMALL[i];
    }
  }

  lemma UpperOfLetter(c: char, i: nat)
    requires IsLetter(c, i)
    ensures UpperChar(c) == CAPITAL[i]
  {
    Alphabets(i);
  }

  /** c is the letter its code says. */
  lemma LetterByCode(c: char, i: nat)
    requires i < 26 && (c as int == 'a' as int + i || c as int == 'A' as int + i)
    ensures IsLetter(c, i)
  {
    Alphabets(i);
  }

  lemma CodesOfPair(a: char, b: char) returns (i: nat)
    requires UpperChar(a) == UpperChar(b) && a != b
    ensures i < 26 && (a as int == 'a' as int + i || a as int == 'A' as int + i)
    ensures b as int == 'a' as int + i || b as int == 'A' as int + i
  {
    i := UpperChar(a) as int - 'A' as int;
  }

  lemma SameLetterIff(a: char, b: char)
    ensures SameLetter(a, b) <==> UpperChar(a) == UpperChar(b)
  {
    if i: nat :| IsLetter(a, i) && IsLetter(b, i) {
      UpperOfLetter(a, i);
      UpperOfLetter(b, i);
    }
    if UpperChar(a) == UpperChar(b) && a != b {
      var i := CodesOfPair(a, b);
      LetterByCode(a, i);
      LetterByCode(b, i);
    }
  }

  /** Two texts are the same up to case exactly when their upper cases are equal. */
  lemma SameUpToCaseIff(s: string, t: string)
    ensures SameUpToCase(s, t) <==> Upper(s) == Upper(t)
  {
    if SameUpToCase(s, t) {
      forall i | 0 <= i < |s| ensures Upper(s)[i] == Upper(t)[i] {
        SameLetterIff(s[i], t[i]);
      }
    }
    if Upper(s) == Upper(t) {
      forall i | 0 <= i < |s| ensures SameLetter(s[i], t[i]) {
        assert Upper(s)[i] == Upper(t)[i];
        SameLetterIff(s[i], t[i]);
      }
    }
  }
}
