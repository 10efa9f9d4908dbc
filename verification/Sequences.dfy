/** A fact about sequences shared by several modules. */
module Sequences {
  lemma TwiceCounts<T>(s: seq<T>, i: nat, j: nat)
    requires i < j < |s| && s[i] == s[j]
    ensures multiset(s)[s[i]] >= 2
  {
    assert s == s[..i + 1] + s[i + 1..];
    assert s[i] in multiset(s[..i + 1]) by { assert s[..i + 1][i] == s[i]; }
    assert s[j] in multiset(s[i + 1..]) by { assert s[i + 1..][j - i - 1] == s[j]; }
  }
}
