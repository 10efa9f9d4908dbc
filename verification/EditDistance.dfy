/**
 Edit distance and keyword suggestion. The reference is a chain of single-character edits,
 each an insertion, a deletion or a substitution anywhere in the string; the distance is the
 length of the shortest chain. The two-row loop is proved to compute it.
 */
module EditDistance {
  import opened Ascii
  import opened Wrappers

  // ---------------------------------------------------------------------------
  // Chains of single edits
  // ---------------------------------------------------------------------------

  /** t is s with one character inserted at i. */
  predicate InsertedAt(s: string, t: string, i: nat) {
    |t| == |s| + 1 && i <= |s| && t[..i] == s[..i] && t[i + 1..] == s[i..]
  }

  predicate SubstitutedAt(s: string, t: string, i: nat) {
    |t| == |s| && i < |s| && t[..i] == s[..i] && t[i + 1..] == s[i + 1..]
  }

  ghost predicate OneEdit(s: string, t: string) {
    exists i: nat :: InsertedAt(s, t, i) || InsertedAt(t, s, i) || SubstitutedAt(s, t, i)
  }

  /** A chain of strings, each one edit away from the one before. */
  ghost predicate EditChain(chain: seq<string>, a: string, b: string) {
    && chain != [] && chain[0] == a && chain[|chain| - 1] == b
    && forall k :: 0 <= k < |chain| - 1 ==> OneEdit(chain[k], chain[k + 1])
  }

  // ---------------------------------------------------------------------------
  // The recurrence
  // ---------------------------------------------------------------------------

  function Min(a: nat, b: nat): nat {
    if a < b then a else b
  }

  function Init(s: string): string
    requires s != ""
  {
    s[..|s| - 1]
  }

  function Last(s: string): char
    requires s != ""
  {
    s[|s| - 1]
  }

  function Cost(a: string, b: string): nat
    requires a != "" && b != ""
  {
    if Last(a) == Last(b) then 0 else 1
  }

  function Dist(a: string, b: string): nat
    decreases |a| + |b|
  {
    if a == "" then |b|
    else if b == "" then |a|
    else Min(Min(Dist(Init(a), b) + 1, Dist(a, Init(b)) + 1), Dist(Init(a), Init(b)) + Cost(a, b))
  }

  // ---------------------------------------------------------------------------
  // The distance is a metric
  // ---------------------------------------------------------------------------

  lemma {:induction false} Symmetric(a: string, b: string)
    ensures Dist(a, b) == Dist(b, a)
    decreases |a| + |b|
  {
    if a != "" && b != "" {
      Symmetric(Init(a), b);
      Symmetric(a, Init(b));
      Symmetric(Init(a), Init(b));
    }
  }

  lemma {:induction false} ZeroIffEqual(a: string, b: string)
    ensures Dist(a, b) == 0 <==> a == b
    decreases |a| + |b|
  {
    if a != "" && b != "" {
      ZeroIffEqual(Init(a), Init(b));
      assert a == Init(a) + [Last(a)] && b == Init(b) + [Last(b)];
    }
  }

  lemma {:induction false} LengthBound(a: string, b: string)
    ensures |a| <= |b| + Dist(a, b) && |b| <= |a| + Dist(a, b) && Dist(a, b) <= |a| + |b|
    decreases |a| + |b|
  {
    if a != "" && b != "" {
      LengthBound(Init(a), b);
      LengthBound(a, Init(b));
      LengthBound(Init(a), Init(b));
    }
  }

  /** One more character costs at most one edit. */
  lemma LastCostsOne(a: string, c: string)
    ensures a != "" ==> Dist(a, c) <= Dist(Init(a), c) + 1
    ensures c != "" ==> Dist(a, c) <= Dist(a, Init(c)) + 1
    ensures a != "" && c != "" ==> Dist(a, c) <= Dist(Init(a), Init(c)) + Cost(a, c)
  {
    LengthBound(if a == "" then a else Init(a), c);
    LengthBound(a, if c == "" then c else Init(c));
  }

  lemma {:induction false} Triangle(a: string, b: string, c: string)
    ensures Dist(a, c) <= Dist(a, b) + Dist(b, c)
    decreases |a| + |b| + |c|
  {
    LastCostsOne(a, c);
    if a == "" || b == "" || c == "" {
      LengthBound(a, b);
      LengthBound(b, c);
      LengthBound(a, c);
    } else if Dist(a, b) == Dist(Init(a), b) + 1 {
      Triangle(Init(a), b, c);
    } else if Dist(b, c) == Dist(b, Init(c)) + 1 {
      Triangle(a, b, Init(c));
    } else if Dist(a, b) == Dist(a, Init(b)) + 1 {
      Triangle(a, Init(b), if Dist(b, c) == Dist(Init(b), c) + 1 then c else Init(c));
    } else {
      Triangle(Init(a), Init(b), if Dist(b, c) == Dist(Init(b), c) + 1 then c else Init(c));
    }
  }

  // ---------------------------------------------------------------------------
  // The distance is the length of the shortest chain
  // ---------------------------------------------------------------------------

  /** A common last character never makes strings further apart. */
  lemma SameLast(s: string, t: string, c: char)
    ensures Dist(s + [c], t + [c]) <= Dist(s, t)
  {
    assert Init(s + [c]) == s && Init(t + [c]) == t;
  }

  lemma {:induction false} SameSuffix(s: string, t: string, tail: string)
    ensures Dist(s + tail, t + tail) <= Dist(s, t)
    decreases |tail|
  {
    if tail == "" {
      assert s + tail == s && t + tail == t;
    } else {
      SameSuffix(s, t, Init(tail));
      SameLast(s + Init(tail), t + Init(tail), Last(tail));
      assert s + tail == s + Init(tail) + [Last(tail)] && t + tail == t + Init(tail) + [Last(tail)];
    }
  }

  lemma InsertIsOne(s: string, t: string, i: nat)
    requires InsertedAt(s, t, i)
    ensures Dist(s, t) <= 1
  {
    var p, q := s[..i], s[i..];
    assert s == p + q && t == (p + [t[i]]) + q;
    SameSuffix(p, p + [t[i]], q);
    assert Init(p + [t[i]]) == p;
    ZeroIffEqual(p, p);
  }

  lemma SubstituteIsOne(s: string, t: string, i: nat)
    requires SubstitutedAt(s, t, i)
    ensures Dist(s, t) <= 1
  {
    var p, q := s[..i], s[i + 1..];
    assert s == (p + [s[i]]) + q && t == (p + [t[i]]) + q;
    SameSuffix(p + [s[i]], p + [t[i]], q);
    assert Init(p + [s[i]]) == p && Init(p + [t[i]]) == p;
    ZeroIffEqual(p, p);
  }

  lemma OneEditIsOne(s: string, t: string)
    requires OneEdit(s, t)
    ensures Dist(s, t) <= 1
  {
    var i: nat :| InsertedAt(s, t, i) || InsertedAt(t, s, i) || SubstitutedAt(s, t, i);
    if InsertedAt(s, t, i) {
      InsertIsOne(s, t, i);
    } else if InsertedAt(t, s, i) {
      InsertIsOne(t, s, i);
      Symmetric(s, t);
    } else {
      SubstituteIsOne(s, t, i);
    }
  }

  /** No chain is shorter than the distance. */
  lemma {:induction false} ChainAtLeastDist(chain: seq<string>, a: string, b: string)
    requires EditChain(chain, a, b)
    ensures |chain| - 1 >= Dist(a, b)
    decreases |chain|
  {
    if |chain| == 1 {
      ZeroIffEqual(a, b);
    } else {
      var mid := chain[|chain| - 2];
      ChainAtLeastDist(chain[..|chain| - 1], a, mid);
      OneEditIsOne(mid, b);
      Triangle(a, mid, b);
    }
  }

  lemma EditKeepsSuffix(s: string, t: string, c: char)
    requires OneEdit(s, t)
    ensures OneEdit(s + [c], t + [c])
  {
    var i: nat :| InsertedAt(s, t, i) || InsertedAt(t, s, i) || SubstitutedAt(s, t, i);
    var s', t' := s + [c], t + [c];
    assert s'[..i] == s[..i] && t'[..i] == t[..i];
    if InsertedAt(s, t, i) {
      assert s'[i..] == s[i..] + [c] && t'[i + 1..] == t[i + 1..] + [c];
      assert InsertedAt(s', t', i);
    } else if InsertedAt(t, s, i) {
      assert t'[i..] == t[i..] + [c] && s'[i + 1..] == s[i + 1..] + [c];
      assert InsertedAt(t', s', i);
    } else {
      assert t'[i + 1..] == t[i + 1..] + [c] && s'[i + 1..] == s[i + 1..] + [c];
      assert SubstitutedAt(s', t', i);
    }
  }

  /** The same chain with c at the end of every string. */
  function Extend(chain: seq<string>, c: char): (r: seq<string>)
    ensures |r| == |chain| && forall k :: 0 <= k < |r| ==> r[k] == chain[k] + [c]
  {
    seq(|chain|, k requires 0 <= k < |chain| => chain[k] + [c])
  }

  lemma ExtendedChain(chain: seq<string>, a: string, b: string, c: char)
    requires EditChain(chain, a, b)
    ensures EditChain(Extend(chain, c), a + [c], b + [c])
  {
    var r := Extend(chain, c);
    forall k | 0 <= k < |r| - 1 ensures OneEdit(r[k], r[k + 1]) {
      EditKeepsSuffix(chain[k], chain[k + 1], c);
    }
  }

  lemma ChainThenEdit(chain: seq<string>, a: string, mid: string, b: string)
    requires EditChain(chain, a, mid) && OneEdit(mid, b)
    ensures EditChain(chain + [b], a, b)
  {
    var r := chain + [b];
    forall k | 0 <= k < |r| - 1 ensures OneEdit(r[k], r[k + 1]) {
      if k < |chain| - 1 { assert OneEdit(chain[k], chain[k + 1]); }
    }
  }

  lemma EditThenChain(chain: seq<string>, a: string, mid: string, b: string)
    requires OneEdit(a, mid) && EditChain(chain, mid, b)
    ensures EditChain([a] + chain, a, b)
  {
    var r := [a] + chain;
    forall k | 0 <= k < |r| - 1 ensures OneEdit(r[k], r[k + 1]) {
      if k > 0 { assert OneEdit(chain[k - 1], chain[k]); }
    }
  }

  lemma LastEdits(s: string)
    requires s != ""
    ensures OneEdit(s, Init(s)) && OneEdit(Init(s), s)
  {
    var i := |s| - 1;
    assert InsertedAt(Init(s), s, i);
  }

  /** Some chain is as short as the distance. */
  lemma {:induction false} ShortestChain(a: string, b: string) returns (chain: seq<string>)
    ensures EditChain(chain, a, b) && |chain| - 1 == Dist(a, b)
    decreases |a| + |b|
  {
    if a == "" && b == "" {
      chain := [a];
    } else if b == "" || (a != "" && Dist(a, b) == Dist(Init(a), b) + 1) {
      var rest := ShortestChain(Init(a), b);
      LastEdits(a);
      EditThenChain(rest, a, Init(a), b);
      chain := [a] + rest;
    } else if a == "" || Dist(a, b) == Dist(a, Init(b)) + 1 {
      var rest := ShortestChain(a, Init(b));
      LastEdits(b);
      ChainThenEdit(rest, a, Init(b), b);
      chain := rest + [b];
    } else {
      chain := DiagonalChain(a, b);
    }
  }

  lemma {:induction false} DiagonalChain(a: string, b: string) returns (chain: seq<string>)
    requires a != "" && b != "" && Dist(a, b) == Dist(Init(a), Init(b)) + Cost(a, b)
    ensures EditChain(chain, a, b) && |chain| - 1 == Dist(a, b)
    decreases |a| + |b|, 0
  {
    var rest := ShortestChain(Init(a), Init(b));
    chain := ChainWithLast(rest, a, b);
  }

  /** The chain between the strings without their last characters, with a's last character
      added to every string and, where the two differ, changed into b's at the end. */
  lemma ChainWithLast(rest: seq<string>, a: string, b: string) returns (chain: seq<string>)
    requires a != "" && b != "" && EditChain(rest, Init(a), Init(b))
    ensures EditChain(chain, a, b) && |chain| == |rest| + Cost(a, b)
  {
    var c := Last(a);
    ExtendedChain(rest, Init(a), Init(b), c);
    chain := Extend(rest, c);
    assert Init(a) + [c] == a;
    if Last(b) == c {
      assert Init(b) + [c] == b;
    } else {
      SubstituteLast(b, c);
      ChainThenEdit(chain, a, Init(b) + [c], b);
      chain := chain + [b];
    }
  }

  lemma SubstituteLast(b: string, c: char)
    requires b != ""
    ensures OneEdit(Init(b) + [c], b)
  {
    assert SubstitutedAt(Init(b) + [c], b, |b| - 1);
  }

  // ---------------------------------------------------------------------------
  // The two-row loop
  // ---------------------------------------------------------------------------

  /** The distance between the first i characters of a and the first j of b. */
  function Entry(a: string, b: string, i: nat, j: nat): nat
    requires i <= |a| && j <= |b|
  {
    Dist(a[..i], b[..j])
  }

  /** The first n cells of row i. */
  predicate IsRow(row: seq<nat>, a: string, b: string, i: nat, n: nat) {
    i <= |a| && |row| == |b| + 1 && n <= |row| && forall j :: 0 <= j < n ==> row[j] == Entry(a, b, i, j)
  }

  lemma Cell(a: string, b: string, i: nat, j: nat)
    requires 1 <= i <= |a| && 1 <= j <= |b|
    ensures Entry(a, b, i, j) ==
            Min(Min(Entry(a, b, i - 1, j) + 1, Entry(a, b, i, j - 1) + 1),
                Entry(a, b, i - 1, j - 1) + if a[i - 1] == b[j - 1] then 0 else 1)
  {
    assert Init(a[..i]) == a[..i - 1] && Init(b[..j]) == b[..j - 1];
  }

  /** Fills `curr` with row i, reading row i - 1 from `prev`. */
  method FillRow(a: string, b: string, i: nat, prev: array<nat>, curr: array<nat>)
    requires 1 <= i <= |a| && prev != curr && curr.Length == |b| + 1
    requires IsRow(prev[..], a, b, i - 1, |b| + 1)
    modifies curr
    ensures IsRow(curr[..], a, b, i, |b| + 1)
  {
    curr[0] := i;
    for j := 1 to |b| + 1
      invariant IsRow(curr[..], a, b, i, j)
      invariant IsRow(prev[..], a, b, i - 1, |b| + 1)
    {
      var cost := if a[i - 1] == b[j - 1] then 0 else 1;
      Cell(a, b, i, j);
      curr[j] := Min(Min(prev[j] + 1, curr[j - 1] + 1), prev[j - 1] + cost);
    }
  }

  method Levenshtein(a: string, b: string) returns (d: nat)
    ensures d == Dist(a, b)
    ensures exists chain :: EditChain(chain, a, b) && |chain| - 1 == d
    ensures forall chain :: EditChain(chain, a, b) ==> |chain| - 1 >= d
  {
    var prev := new nat[|b| + 1](j => j);
    var curr := new nat[|b| + 1](j => 0);
    for i := 1 to |a| + 1
      invariant prev != curr && prev.Length == curr.Length == |b| + 1 && fresh(prev) && fresh(curr)
      invariant IsRow(prev[..], a, b, i - 1, |b| + 1)
    {
      FillRow(a, b, i, prev, curr);
      prev, curr := curr, prev;
    }
    d := prev[|b|];
    assert a[..|a|] == a && b[..|b|] == b;
    ghost var shortest := ShortestChain(a, b);
    forall chain | EditChain(chain, a, b) ensures |chain| - 1 >= d {
      ChainAtLeastDist(chain, a, b);
    }
  }

  // ---------------------------------------------------------------------------
  // Keyword suggestion
  // ---------------------------------------------------------------------------

  const CLAUSES: seq<string> := [
    "MATCH", "WHERE", "RETURN", "CREATE", "SET", "DELETE", "MERGE", "REMOVE", "WITH", "UNWIND"]
  const MODIFIERS: seq<string> := [
    "ORDER", "BY", "LIMIT", "SKIP", "DISTINCT", "AS", "AND", "OR", "NOT", "IN", "IS", "NULL"]
  const FORMS: seq<string> := [
    "UNION", "CALL", "LOAD", "CSV", "CASE", "WHEN", "THEN", "ELSE", "END", "EXISTS", "COUNT"]
  const FUNCTIONS: seq<string> := [
    "SUM", "AVG", "MIN", "MAX", "COLLECT", "DETACH", "ON", "ASC", "DESC"]

  const KEYWORDS: seq<string> := CLAUSES + MODIFIERS + FORMS + FUNCTIONS

  /** In capitals, of 2 to 8 letters. */
  predicate IsKeywordText(s: string) {
    2 <= |s| <= 8 && forall j :: 0 <= j < |s| ==> 'A' <= s[j] <= 'Z'
  }

  lemma ClauseTexts(k: nat)
    requires k < |CLAUSES|
    ensures IsKeywordText(CLAUSES[k])
  {
  }

  lemma ModifierTexts(k: nat)
    requires k < |MODIFIERS|
    ensures IsKeywordText(MODIFIERS[k])
  {
  }

  lemma FormTexts(k: nat)
    requires k < |FORMS|
    ensures IsKeywordText(FORMS[k])
  {
  }

  lemma FunctionTexts(k: nat)
    requires k < |FUNCTIONS|
    ensures IsKeywordText(FUNCTIONS[k])
  {
  }

  lemma KeywordTexts(k: nat)
    requires k < |KEYWORDS|
    ensures IsKeywordText(KEYWORDS[k])
  {
    var a, b, c := |CLAUSES|, |CLAUSES| + |MODIFIERS|, |CLAUSES| + |MODIFIERS| + |FORMS|;
    if k < a {
      ClauseTexts(k);
    } else if k < b {
      ModifierTexts(k - a);
    } else if k < c {
      FormTexts(k - b);
    } else {
      FunctionTexts(k - c);
    }
  }

  function Threshold(keyword: string): nat {
    if |keyword| / 3 > 1 then |keyword| / 3 else 1
  }

  predicate Close(upper: string, keyword: string) {
    Dist(upper, keyword) <= Threshold(keyword)
  }

  /** Keyword k is the earliest of the closest ones among the first n. */
  predicate IsClosest(upper: string, keywords: seq<string>, n: nat, k: nat)
    requires n <= |keywords|
  {
    && k < n && Close(upper, keywords[k])
    && forall m :: 0 <= m < n && Close(upper, keywords[m]) ==>
         && Dist(upper, keywords[k]) <= Dist(upper, keywords[m])
         && (m < k ==> Dist(upper, keywords[k]) < Dist(upper, keywords[m]))
  }

  predicate NoneClose(upper: string, keywords: seq<string>, n: nat)
    requires n <= |keywords|
  {
    forall k :: 0 <= k < n ==> !Close(upper, keywords[k])
  }

  predicate BestSoFar(upper: string, keywords: seq<string>, n: nat, best: Option<nat>)
    requires n <= |keywords|
  {
    match best
    case None => NoneClose(upper, keywords, n)
    case Some(k) => IsClosest(upper, keywords, n, k)
  }

  lemma NextKeyword(upper: string, keywords: seq<string>, n: nat, best: Option<nat>)
    requires n < |keywords| && BestSoFar(upper, keywords, n, best)
    ensures var better := Close(upper, keywords[n]) &&
                          (best.None? || Dist(upper, keywords[n]) < Dist(upper, keywords[best.value]));
            BestSoFar(upper, keywords, n + 1, if better then Some(n) else best)
  {
  }

  method Closest(upper: string, keywords: seq<string>) returns (best: Option<nat>)
    ensures BestSoFar(upper, keywords, |keywords|, best)
  {
    best := None;
    var bestDist := 0;
    for k := 0 to |keywords|
      invariant BestSoFar(upper, keywords, k, best)
      invariant best.Some? ==> bestDist == Dist(upper, keywords[best.value])
    {
      var dist := Levenshtein(upper, keywords[k]);
      NextKeyword(upper, keywords, k, best);
      if dist <= Threshold(keywords[k]) && (best.None? || dist < bestDist) {
        best, bestDist := Some(k), dist;
      }
    }
  }

  method SuggestKeyword(token: string) returns (suggestion: Option<string>)
    ensures suggestion.None? <==> NoneClose(Upper(token), KEYWORDS, |KEYWORDS|)
    ensures suggestion.Some? ==>
              exists k: nat :: IsClosest(Upper(token), KEYWORDS, |KEYWORDS|, k) && suggestion.value == KEYWORDS[k]
  {
    var best := Closest(Upper(token), KEYWORDS);
    suggestion := if best.Some? then Some(KEYWORDS[best.value]) else None;
  }

  /** What counts as close, by numbers: one edit for keywords of up to 5 letters, two for those
      of 6 to 8, and no keyword is longer. */
  lemma CloseByNumbers(upper: string, k: nat)
    requires k < |KEYWORDS|
    ensures 2 <= |KEYWORDS[k]| <= 8
    ensures Close(upper, KEYWORDS[k]) <==> Dist(upper, KEYWORDS[k]) <= if |KEYWORDS[k]| <= 5 then 1 else 2
  {
    KeywordTexts(k);
  }

  /** Tokens that are the same up to case are given the same suggestion, or both none. */
  lemma CaseDoesNotMatter(token: string, other: string, keywords: seq<string>)
    requires SameUpToCase(token, other)
    ensures NoneClose(Upper(token), keywords, |keywords|) <==> NoneClose(Upper(other), keywords, |keywords|)
    ensures forall j, k: nat ::
              IsClosest(Upper(token), keywords, |keywords|, j) ==>
              IsClosest(Upper(other), keywords, |keywords|, k) ==> j == k
  {
    SameUpToCaseIff(token, other);
  }

  /** A token that is a keyword, in whatever case, is never corrected to another. */
  lemma KeywordSuggestsItself(token: string, i: nat, k: nat)
    requires i < |KEYWORDS| && SameUpToCase(token, KEYWORDS[i]) && IsClosest(Upper(token), KEYWORDS, |KEYWORDS|, k)
    ensures KEYWORDS[k] == KEYWORDS[i]
  {
    SameUpToCaseIff(token, KEYWORDS[i]);
    KeywordTexts(i);
    assert Upper(KEYWORDS[i]) == KEYWORDS[i];
    ClosestToItself(KEYWORDS, i, k);
  }

  lemma ClosestToItself(keywords: seq<string>, i: nat, k: nat)
    requires i < |keywords| && IsClosest(keywords[i], keywords, |keywords|, k)
    ensures keywords[k] == keywords[i]
  {
    ZeroIffEqual(keywords[i], keywords[i]);
    ZeroIffEqual(keywords[i], keywords[k]);
    assert Close(keywords[i], keywords[i]);
  }
}
