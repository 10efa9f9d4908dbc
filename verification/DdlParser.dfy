/**
 The string-based parser of CREATE MATERIALIZED VIEW, on ASCII input: case conversion keeps
 positions. Printing a statement and parsing it gives it back exactly when its name is one
 word and its query is a trimmed, non-empty text that does not end in a semicolon.
 */
module DdlParser {
  import opened Ascii
  import opened Wrappers

  // ---------------------------------------------------------------------------
  // Strings
  // ---------------------------------------------------------------------------

  predicate IsSpace(c: char) {
    c == ' ' || c == '\t' || c == '\n' || c == '\U{0B}' || c == '\U{0C}' || c == '\r'
  }

  /** White space is the blank and the control characters 9 to 13. */
  lemma SpaceByCode(c: char)
    ensures IsSpace(c) <==> c as int == 32 || 9 <= c as int <= 13
  {
  }

  function TrimStart(s: string): (r: string)
    ensures r != "" ==> !IsSpace(r[0])
    ensures s != "" && !IsSpace(s[0]) ==> r == s
  {
    if s != "" && IsSpace(s[0]) then TrimStart(s[1..]) else s
  }

  lemma {:induction false} TrimStartIsSuffix(s: string)
    ensures |TrimStart(s)| <= |s| && TrimStart(s) == s[|s| - |TrimStart(s)|..]
    ensures s != "" && IsSpace(s[0]) ==> |TrimStart(s)| < |s|
  {
    if s != "" && IsSpace(s[0]) {
      TrimStartIsSuffix(s[1..]);
    }
  }

  function TrimEnd(s: string): (r: string)
    ensures |r| <= |s| && r == s[..|r|]
    ensures r != "" ==> !IsSpace(r[|r| - 1])
    ensures s != "" && !IsSpace(s[|s| - 1]) ==> r == s
    ensures s != "" && IsSpace(s[|s| - 1]) ==> |r| < |s|
  {
    if s != "" && IsSpace(s[|s| - 1]) then TrimEnd(s[..|s| - 1]) else s
  }

  function Trim(s: string): string {
    TrimStart(TrimEnd(s))
  }

  function TrimSemicolons(s: string): (r: string)
    ensures |r| <= |s| && r == s[..|r|]
    ensures r != "" ==> r[|r| - 1] != ';'
    ensures s != "" && s[|s| - 1] != ';' ==> r == s
  {
    if s != "" && s[|s| - 1] == ';' then TrimSemicolons(s[..|s| - 1]) else s
  }

  /** Exactly the semicolons at the end are cut off. */
  lemma {:induction false} SemicolonsOff(s: string, n: nat)
    requires s == "" || s[|s| - 1] != ';'
    ensures TrimSemicolons(s + seq(n, _ => ';')) == s
    decreases n
  {
    var semicolons := seq(n, _ => ';');
    if n == 0 {
      assert s + semicolons == s;
    } else {
      assert (s + semicolons)[..|s + semicolons| - 1] == s + seq(n - 1, _ => ';');
      SemicolonsOff(s, n - 1);
    }
  }

  predicate OccursAt(s: string, pat: string, i: nat) {
    i + |pat| <= |s| && s[i..i + |pat|] == pat
  }

  /** The first occurrence. */
  function Find(s: string, pat: string, start: nat): (r: Option<nat>)
    requires start <= |s|
    ensures r.Some? ==> && start <= r.value && OccursAt(s, pat, r.value)
                        && forall j: nat :: start <= j < r.value ==> !OccursAt(s, pat, j)
    ensures r.None? ==> forall j: nat :: start <= j <= |s| ==> !OccursAt(s, pat, j)
    decreases |s| - start
  {
    if OccursAt(s, pat, start) then Some(start)
    else if start == |s| then None
    else Find(s, pat, start + 1)
  }

  /** The text up to the first white space. */
  function FirstWord(s: string): (r: string)
    ensures |r| <= |s| && r == s[..|r|] && OneWord(r)
    ensures |r| < |s| ==> IsSpace(s[|r|])
  {
    if s == "" || IsSpace(s[0]) then "" else [s[0]] + FirstWord(s[1..])
  }

  predicate OneWord(s: string) {
    forall i :: 0 <= i < |s| ==> !IsSpace(s[i])
  }

  // ---------------------------------------------------------------------------
  // The parser
  // ---------------------------------------------------------------------------

  datatype RefreshMode = Incremental | Manual

  datatype Statement = Statement(name: string, query: string, mode: RefreshMode)

  datatype Parsed = Ok(statement: Statement) | ExpectedCreate | MissingName | MissingAs

  const CREATE := "CREATE MATERIALIZED VIEW"
  const AS := " AS "
  const WITH_INCREMENTAL := "WITH INCREMENTAL"
  const WITH_MANUAL := "WITH MANUAL"

  function ModeOf(between: string): RefreshMode {
    var upper := Upper(between);
    if Find(upper, WITH_INCREMENTAL, 0).Some? then Incremental
    else if Find(upper, WITH_MANUAL, 0).Some? then Manual
    else Incremental
  }

  function ParseCreateMv(text: string): (r: Parsed)
  {
    var input := Trim(text);
    if !OccursAt(Upper(input), CREATE, 0) then ExpectedCreate
    else ParseAfterCreate(TrimStart(input[|CREATE|..]))
  }

  function ParseAfterCreate(after: string): (r: Parsed)
    ensures r.Ok? ==> && r.statement.name != "" && OneWord(r.statement.name)
                      && (r.statement.query != "" ==> r.statement.query[|r.statement.query| - 1] != ';')
  {
    var name := FirstWord(after);
    if name == "" then MissingName
    else
      var pos := Find(Upper(after), AS, 0);
      if pos.None? then MissingAs
      else
        AsIsAfterName(after, name, pos.value);
        Ok(StatementAt(after, name, pos.value))
  }

  /** The statement whose keyword AS is at the given position. */
  function StatementAt(after: string, name: string, pos: nat): (r: Statement)
    requires |name| <= pos && pos + 4 <= |after|
    ensures r.name == name && (r.query != "" ==> r.query[|r.query| - 1] != ';')
  {
    Statement(name, TrimSemicolons(Trim(after[pos + 4..])), ModeOf(after[|name|..pos]))
  }

  lemma UpperKeepsSpaces(s: string, i: nat)
    requires i < |s|
    ensures Upper(s)[i] == ' ' <==> s[i] == ' '
  {
  }

  /** The keyword starts with a blank, so it cannot start inside the name. */
  lemma AsIsAfterName(after: string, name: string, pos: nat)
    requires |name| <= |after| && name == after[..|name|] && OneWord(name) && OccursAt(Upper(after), AS, pos)
    ensures |name| <= pos <= pos + 4 <= |after|
  {
    assert Upper(after)[pos] == Upper(after)[pos..pos + 4][0] == ' ';
    UpperKeepsSpaces(after, pos);
    assert forall i :: 0 <= i < |name| ==> after[i] == name[i];
  }

  // ---------------------------------------------------------------------------
  // Printing
  // ---------------------------------------------------------------------------

  /** How the refresh mode was written. */
  datatype Clause = Unstated | StatedIncremental | StatedManual

  function ClauseText(c: Clause): string {
    match c
    case Unstated => ""
    case StatedIncremental => " WITH INCREMENTAL"
    case StatedManual => " WITH MANUAL"
  }

  function ClauseMode(c: Clause): RefreshMode {
    if c.StatedManual? then Manual else Incremental
  }

  function Head(name: string, clause: Clause): string {
    CREATE + " " + (name + ClauseText(clause) + AS)
  }

  function Print(name: string, clause: Clause, query: string): string {
    Head(name, clause) + query
  }

  predicate Printable(name: string, query: string) {
    && name != "" && OneWord(name)
    && query != "" && !IsSpace(query[0]) && !IsSpace(query[|query| - 1]) && query[|query| - 1] != ';'
  }

  // ---------------------------------------------------------------------------
  // Parsing what was printed
  // ---------------------------------------------------------------------------

  lemma CreateIsUpper()
    ensures Upper(CREATE) == CREATE && CREATE[0] == 'C'
  {
  }

  lemma PrintedHead(body: string)
    requires body != "" && !IsSpace(body[0]) && !IsSpace(body[|body| - 1])
    ensures ParseCreateMv(CREATE + " " + body) == ParseAfterCreate(body)
  {
    SpacedHead(CREATE, " ", body);
  }

  /** " AS " does not start inside the name or the clause. */
  lemma NoEarlierAs(name: string, clause: Clause, query: string, j: nat)
    requires OneWord(name) && j < |name + ClauseText(clause)|
    ensures !OccursAt(Upper(name + ClauseText(clause) + AS + query), AS, j)
  {
    var c := ClauseText(clause);
    var body := name + c + AS + query;
    if OccursAt(Upper(body), AS, j) {
      AsIsAfterName(body, name, j);
      var k := j - |name|;
      assert body[j] == c[k] && body[j + 1] == (c + AS)[k + 1];
      assert Upper(body)[j..j + 4][0] == ' ' && Upper(body)[j..j + 4][1] == 'A';
      ClauseBlanks(clause, k);
    }
  }

  lemma ClauseBlanks(clause: Clause, k: nat)
    requires k < |ClauseText(clause)|
    ensures UpperChar(ClauseText(clause)[k]) == ' ' ==> UpperChar((ClauseText(clause) + AS)[k + 1]) != 'A'
  {
  }

  lemma PrintedClause(clause: Clause)
    ensures ModeOf(ClauseText(clause)) == ClauseMode(clause)
  {
    var c := ClauseText(clause);
    match clause
    case Unstated =>
    case StatedIncremental =>
      assert Upper(c) == c && OccursAt(c, WITH_INCREMENTAL, 1);
    case StatedManual =>
      assert Upper(c) == c && OccursAt(c, WITH_MANUAL, 1);
  }

  lemma FindFirst(s: string, pat: string, pos: nat)
    requires OccursAt(s, pat, pos) && forall j: nat :: j < pos ==> !OccursAt(s, pat, j)
    ensures Find(s, pat, 0) == Some(pos)
  {
  }

  lemma PrintedAs(name: string, clause: Clause, query: string)
    requires OneWord(name)
    ensures var body := name + ClauseText(clause) + AS + query;
            Find(Upper(body), AS, 0) == Some(|name + ClauseText(clause)|)
  {
    var body, pos := name + ClauseText(clause) + AS + query, |name + ClauseText(clause)|;
    forall j: nat | j < pos ensures !OccursAt(Upper(body), AS, j) {
      NoEarlierAs(name, clause, query, j);
    }
    assert Upper(body)[pos..pos + 4] == AS;
    FindFirst(Upper(body), AS, pos);
  }

  /** What the parser makes of a text whose parts are known. */
  lemma ParsedParts(name: string, clause: string, query: string)
    requires name != "" && FirstWord(name + clause + AS + query) == name
    requires Find(Upper(name + clause + AS + query), AS, 0) == Some(|name + clause|)
    ensures ParseAfterCreate(name + clause + AS + query)
            == Ok(Statement(name, TrimSemicolons(Trim(query)), ModeOf(clause)))
  {
    var body, pos := name + clause + AS + query, |name + clause|;
    PartsAt(name, clause, query);
    ParsedAt(body, name, pos);
  }

  lemma PartsAt(name: string, clause: string, query: string)
    ensures StatementAt(name + clause + AS + query, name, |name + clause|)
            == Statement(name, TrimSemicolons(Trim(query)), ModeOf(clause))
  {
    var body, pos := name + clause + AS + query, |name + clause|;
    assert body[|name|..pos] == clause;
    assert body[pos + 4..] == query;
  }

  lemma PrintedName(name: string, clause: Clause, query: string)
    requires OneWord(name)
    ensures FirstWord(name + ClauseText(clause) + AS + query) == name
  {
    var rest := ClauseText(clause) + AS + query;
    assert name + ClauseText(clause) + AS + query == name + rest;
    WordThenBlank(name, rest);
  }

  lemma PrintedBody(name: string, clause: Clause, query: string)
    requires name != "" && OneWord(name)
    ensures ParseAfterCreate(name + ClauseText(clause) + AS + query)
            == Ok(Statement(name, TrimSemicolons(Trim(query)), ClauseMode(clause)))
  {
    PrintedName(name, clause, query);
    PrintedAs(name, clause, query);
    PrintedClause(clause);
    ParsedParts(name, ClauseText(clause), query);
  }

  lemma {:induction false} WordThenBlank(name: string, rest: string)
    requires OneWord(name) && rest != "" && IsSpace(rest[0])
    ensures FirstWord(name + rest) == name
  {
    if name == "" {
      assert name + rest == rest;
    } else {
      WordThenBlank(name[1..], rest);
      assert (name + rest)[1..] == name[1..] + rest;
    }
  }

  lemma Regroup(a: string, b: string, c: string)
    ensures a + b + c == a + (b + c)
  {
  }

  /** What the parser sees once the keywords and outer white space are off. */
  lemma PrintedText(name: string, clause: Clause, query: string)
    requires name != "" && OneWord(name) && query != "" && !IsSpace(query[|query| - 1])
    ensures ParseCreateMv(Print(name, clause, query))
            == Ok(Statement(name, TrimSemicolons(Trim(query)), ClauseMode(clause)))
  {
    var start := name + ClauseText(clause) + AS;
    Regroup(CREATE + " ", start, query);
    PrintedHead(start + query);
    PrintedBody(name, clause, query);
  }

  lemma TrimmedStays(query: string)
    requires query != "" && !IsSpace(query[0]) && !IsSpace(query[|query| - 1]) && query[|query| - 1] != ';'
    ensures TrimSemicolons(Trim(query)) == query
  {
    assert TrimEnd(query) == query;
  }

  lemma RoundTrip(name: string, clause: Clause, query: string)
    requires Printable(name, query)
    ensures ParseCreateMv(Print(name, clause, query)) == Ok(Statement(name, query, ClauseMode(clause)))
  {
    PrintedText(name, clause, query);
    TrimmedStays(query);
  }

  // ---------------------------------------------------------------------------
  // Nothing else survives
  // ---------------------------------------------------------------------------

  lemma {:induction false} TrimEndConcat(p: string, q: string)
    ensures TrimEnd(p + q) == if TrimEnd(q) == "" then TrimEnd(p) else p + TrimEnd(q)
    decreases |q|
  {
    if q == "" {
      assert p + q == p;
    } else if IsSpace(q[|q| - 1]) {
      TrimEndConcat(p, q[..|q| - 1]);
      assert (p + q)[..|p + q| - 1] == p + q[..|q| - 1];
    }
  }

  lemma OnlyTrimmedMatters(a: string, b: string)
    requires TrimEnd(a) == TrimEnd(b)
    ensures ParseCreateMv(a) == ParseCreateMv(b)
  {
  }

  /** Trailing white space of the query is gone before parsing starts. */
  lemma TrailingSpaceIsLost(name: string, clause: Clause, query: string)
    requires TrimEnd(query) != ""
    ensures ParseCreateMv(Print(name, clause, query)) == ParseCreateMv(Print(name, clause, TrimEnd(query)))
  {
    var head := Head(name, clause);
    SameTrimEnd(head, query);
    OnlyTrimmedMatters(head + query, head + TrimEnd(query));
  }

  lemma SameTrimEnd(head: string, query: string)
    requires TrimEnd(query) != ""
    ensures TrimEnd(head + query) == TrimEnd(head + TrimEnd(query))
  {
    TrimEndConcat(head, query);
    TrimEndConcat(head, TrimEnd(query));
  }

  lemma BlankTail(p: string, q: string)
    requires p != "" && !IsSpace(p[|p| - 1]) && TrimEnd(q) == ""
    ensures TrimEnd(p + " " + q) == p
  {
    TrimEndConcat(p + " ", q);
    assert (p + " ")[..|p|] == p;
  }

  lemma HeadEndsInBlank(name: string, clause: Clause)
    ensures Head(name, clause) == CREATE + " " + (name + ClauseText(clause) + " AS") + " "
  {
    var c := name + ClauseText(clause);
    assert AS == " AS" + " ";
    Regroup(c, " AS", " ");
    Regroup(CREATE + " ", c + " AS", " ");
  }

  /** Without a query the keyword AS is no longer surrounded by blanks. */
  lemma BlankQueryFails(name: string, clause: Clause, query: string)
    requires name != "" && OneWord(name) && TrimEnd(query) == ""
    ensures ParseCreateMv(Print(name, clause, query)) == MissingAs
  {
    var body := name + ClauseText(clause) + " AS";
    var text := CREATE + " " + body;
    HeadEndsInBlank(name, clause);
    BlankTail(text, query);
    OnlyTrimmedMatters(text + " " + query, text);
    PrintedHead(body);
    BareAs(name, clause);
  }

  lemma PrefixOccurs(s: string, t: string, pat: string, j: nat)
    requires |s| <= |t| && s == t[..|s|]
    ensures OccursAt(s, pat, j) ==> OccursAt(t, pat, j)
  {
    if OccursAt(s, pat, j) {
      assert t[j..j + |pat|] == s[j..j + |pat|];
    }
  }

  lemma NoBareAs(name: string, clause: Clause, j: nat)
    requires OneWord(name)
    ensures !OccursAt(Upper(name + ClauseText(clause) + " AS"), AS, j)
  {
    var body, longer := name + ClauseText(clause) + " AS", name + ClauseText(clause) + AS + "";
    if j < |name + ClauseText(clause)| {
      NoEarlierAs(name, clause, "", j);
      assert Upper(body) == Upper(longer)[..|body|];
      PrefixOccurs(Upper(body), Upper(longer), AS, j);
    }
  }

  lemma BareAs(name: string, clause: Clause)
    requires name != "" && OneWord(name)
    ensures ParseAfterCreate(name + ClauseText(clause) + " AS") == MissingAs
  {
    var c := ClauseText(clause);
    var body := name + c + " AS";
    WordThenBlank(name, c + " AS");
    assert body == name + (c + " AS");
    var found := Find(Upper(body), AS, 0);
    if found.Some? {
      NoBareAs(name, clause, found.value);
    }
  }

  /** The condition is exact: printing and parsing gives the statement back if and only if the
      name is one word and the query is trimmed, not empty and without a final semicolon. */
  lemma RoundTripIff(name: string, clause: Clause, query: string)
    ensures ParseCreateMv(Print(name, clause, query)) == Ok(Statement(name, query, ClauseMode(clause))) <==>
            Printable(name, query)
  {
    if Printable(name, query) {
      RoundTrip(name, clause, query);
    } else if ParseCreateMv(Print(name, clause, query)) == Ok(Statement(name, query, ClauseMode(clause))) {
      ParsedIsOneWord(Print(name, clause, query));
      if TrimEnd(query) == "" {
        BlankQueryFails(name, clause, query);
      } else {
        var q := TrimEnd(query);
        TrailingSpaceIsLost(name, clause, query);
        PrintedText(name, clause, q);
      }
    }
  }

  lemma ParsedIsOneWord(text: string)
    ensures var r := ParseCreateMv(text);
            r.Ok? ==> && r.statement.name != "" && OneWord(r.statement.name)
                      && (r.statement.query != "" ==> r.statement.query[|r.statement.query| - 1] != ';')
  {
  }

  // ---------------------------------------------------------------------------
  // Keywords in any case
  // ---------------------------------------------------------------------------

  lemma UpperConcat(a: string, b: string)
    ensures Upper(a + b) == Upper(a) + Upper(b)
  {
  }

  lemma SameMode(a: string, b: string, n: nat, pos: nat)
    requires Upper(a) == Upper(b) && n <= pos <= |a| == |b|
    ensures ModeOf(a[n..pos]) == ModeOf(b[n..pos])
  {
    assert Upper(a[n..pos]) == Upper(a)[n..pos];
    assert Upper(b[n..pos]) == Upper(b)[n..pos];
  }

  /** The parser looks at the text between the name and the query only in upper case. */
  lemma SameAfterCreate(a: string, b: string, pos: nat)
    requires Upper(a) == Upper(b) && FirstWord(a) == FirstWord(b) != ""
    requires Find(Upper(a), AS, 0) == Some(pos) && |a| == |b| && pos + 4 <= |a| && a[pos + 4..] == b[pos + 4..]
    ensures ParseAfterCreate(a) == ParseAfterCreate(b)
  {
    var name, query := FirstWord(a), a[pos + 4..];
    AsIsAfterName(a, name, pos);
    SameMode(a, b, |name|, pos);
    assert StatementAt(a, name, pos) == StatementAt(b, name, pos);
    ParsedAt(a, name, pos);
    ParsedAt(b, name, pos);
  }

  lemma ParsedAt(a: string, name: string, pos: nat)
    requires FirstWord(a) == name != "" && Find(Upper(a), AS, 0) == Some(pos) && |name| <= pos <= pos + 4 <= |a|
    ensures ParseAfterCreate(a) == Ok(StatementAt(a, name, pos))
  {
  }

  lemma RespelledHead(create: string, body: string)
    requires SameUpToCase(create, "CREATE MATERIALIZED VIEW")
    requires body != "" && !IsSpace(body[0]) && !IsSpace(body[|body| - 1])
    ensures ParseCreateMv(create + " " + body) == ParseAfterCreate(body)
  {
    SpacedHead(create, " ", body);
  }

  lemma FirstLetter(create: string)
    requires Upper(create) == CREATE
    ensures !IsSpace(create[0])
  {
    assert Upper(create)[0] == UpperChar(create[0]) == 'C';
  }

  lemma RespelledBody(name: string, clause: Clause, query: string, c: string, asWord: string)
    requires name != "" && OneWord(name) && SameUpToCase(c, ClauseText(clause)) && SameUpToCase(asWord, " AS ")
    ensures ParseAfterCreate(name + c + asWord + query) == ParseAfterCreate(name + ClauseText(clause) + AS + query)
  {
    var a, b := name + ClauseText(clause) + AS + query, name + c + asWord + query;
    SameUpToCaseIff(c, ClauseText(clause));
    SameUpToCaseIff(asWord, AS);
    SameUpper(name, ClauseText(clause), AS, c, asWord, query);
    PrintedName(name, clause, query);
    RespelledName(name, clause, c, asWord, query);
    PrintedAs(name, clause, query);
    var pos := |name + c|;
    assert a[pos + 4..] == query && b[pos + 4..] == query;
    SameAfterCreate(a, b, pos);
  }

  lemma SameUpper(name: string, c: string, a: string, c': string, a': string, query: string)
    requires Upper(c) == Upper(c') && Upper(a) == Upper(a')
    ensures Upper(name + c + a + query) == Upper(name + c' + a' + query)
  {
    UpperConcat(name, c);
    UpperConcat(name, c');
    UpperConcat(name + c, a);
    UpperConcat(name + c', a');
    UpperConcat(name + c + a, query);
    UpperConcat(name + c' + a', query);
  }

  lemma RespelledName(name: string, clause: Clause, c: string, asWord: string, query: string)
    requires OneWord(name) && Upper(c) == Upper(ClauseText(clause)) && Upper(asWord) == Upper(AS)
    ensures FirstWord(name + c + asWord + query) == name
  {
    var rest := c + asWord + query;
    assert name + c + asWord + query == name + rest;
    assert UpperChar(rest[0]) == ' ' by {
      if c == "" {
        assert rest[0] == asWord[0] && Upper(asWord)[0] == Upper(AS)[0];
      } else {
        assert rest[0] == c[0] && Upper(c)[0] == Upper(ClauseText(clause))[0];
        assert ClauseText(clause)[0] == ' ';
      }
    }
    WordThenBlank(name, rest);
  }

  /** A printed statement whose CREATE MATERIALIZED VIEW, WITH INCREMENTAL, WITH MANUAL and AS are
      written in any case parses to the same statement, name and query untouched. */
  lemma AnyCaseParses(name: string, clause: Clause, query: string, create: string, c: string, asWord: string)
    requires Printable(name, query)
    requires SameUpToCase(create, "CREATE MATERIALIZED VIEW") && SameUpToCase(asWord, " AS ")
    requires SameUpToCase(c, match clause
                             case Unstated => ""
                             case StatedIncremental => " WITH INCREMENTAL"
                             case StatedManual => " WITH MANUAL")
    ensures ParseCreateMv(create + " " + (name + c + asWord + query)) == Ok(Statement(name, query, ClauseMode(clause)))
  {
    var body := name + c + asWord + query;
    assert body[0] == name[0] && body[|body| - 1] == query[|query| - 1];
    RespelledHead(create, body);
    RespelledBody(name, clause, query, c, asWord);
    PrintedBody(name, clause, query);
    TrimmedStays(query);
  }

  // ---------------------------------------------------------------------------
  // Which texts are refused
  // ---------------------------------------------------------------------------

  predicate AllSpace(s: string) {
    forall i :: 0 <= i < |s| ==> IsSpace(s[i])
  }

  /** Not empty, and no white space at either end. */
  predicate IsTrimmed(s: string) {
    s != "" && !IsSpace(s[0]) && !IsSpace(s[|s| - 1])
  }

  lemma TrimStartOne(c: char, t: string)
    requires IsSpace(c)
    ensures TrimStart([c] + t) == TrimStart(t)
  {
    assert ([c] + t)[1..] == t;
  }

  lemma {:induction false} TrimStartOff(a: string, t: string)
    requires AllSpace(a)
    ensures TrimStart(a + t) == TrimStart(t)
  {
    if a == "" {
      assert a + t == t;
    } else {
      TrimStartOff(a[1..], t);
      TrimStartOne(a[0], a[1..] + t);
      assert a + t == [a[0]] + (a[1..] + t);
    }
  }

  lemma {:induction false} TrimStartKeepsLast(s: string)
    requires s != "" && !IsSpace(s[|s| - 1])
    ensures TrimStart(s) != ""
  {
    if IsSpace(s[0]) {
      assert s[1..][|s| - 2] == s[|s| - 1];
      TrimStartKeepsLast(s[1..]);
    }
  }

  lemma {:induction false} TrimEndOff(t: string, b: string)
    requires AllSpace(b)
    ensures TrimEnd(t + b) == TrimEnd(t)
    decreases |b|
  {
    if b == "" {
      assert t + b == t;
    } else {
      TrimEndOff(t, b[..|b| - 1]);
      assert (t + b)[..|t + b| - 1] == t + b[..|b| - 1];
    }
  }

  /** White space around a statement does not matter. */
  lemma OuterSpace(a: string, t: string, b: string)
    requires AllSpace(a) && AllSpace(b) && IsTrimmed(t)
    ensures Trim(a + t + b) == t && ParseCreateMv(a + t + b) == ParseCreateMv(t)
  {
    TrimEndOff(a + t, b);
    assert (a + t)[|a + t| - 1] == t[|t| - 1];
    TrimStartOff(a, t);
  }

  lemma StartsIff(t: string)
    ensures OccursAt(Upper(t), CREATE, 0) <==> |t| >= 24 && SameUpToCase(t[..24], "CREATE MATERIALIZED VIEW")
  {
    if |t| >= 24 {
      assert Upper(t[..24]) == Upper(t)[0..24];
      SameUpToCaseIff(t[..24], CREATE);
      CreateIsUpper();
    }
  }

  /** A text is refused for its first words exactly when these are not CREATE MATERIALIZED VIEW in
      some case, and for its name exactly when nothing follows them. */
  lemma RefusedIff(t: string)
    requires IsTrimmed(t)
    ensures ParseCreateMv(t) == ExpectedCreate <==>
            !(|t| >= 24 && SameUpToCase(t[..24], "CREATE MATERIALIZED VIEW"))
    ensures ParseCreateMv(t) == MissingName <==> SameUpToCase(t, "CREATE MATERIALIZED VIEW")
  {
    assert Trim(t) == t;
    StartsIff(t);
    if |t| > 24 {
      TrimStartKeepsLast(t[24..]);
    } else if |t| == 24 {
      assert t[..24] == t && t[24..] == "";
    }
    NamedIff(TrimStart(if |t| >= 24 then t[24..] else ""));
  }

  lemma NamedIff(after: string)
    requires after != "" ==> !IsSpace(after[0])
    ensures ParseAfterCreate(after) != ExpectedCreate && (ParseAfterCreate(after) == MissingName <==> after == "")
  {
  }

  lemma OccursIff(s: string, j: nat, word: string)
    requires Upper(word) == word
    ensures OccursAt(Upper(s), word, j) <==> j + |word| <= |s| && SameUpToCase(s[j..j + |word|], word)
  {
    if j + |word| <= |s| {
      assert Upper(s[j..j + |word|]) == Upper(s)[j..j + |word|];
      SameUpToCaseIff(s[j..j + |word|], word);
    }
  }

  /** The word stands somewhere in the text, in some case. */
  ghost predicate Mentions(s: string, word: string) {
    exists j: nat :: MentionsAt(s, j, word)
  }

  ghost predicate MentionsAt(s: string, j: nat, word: string) {
    j + |word| <= |s| && SameUpToCase(s[j..j + |word|], word)
  }

  lemma FindIff(s: string, word: string)
    requires Upper(word) == word
    ensures Find(Upper(s), word, 0).Some? <==> Mentions(s, word)
  {
    var found := Find(Upper(s), word, 0);
    if found.Some? {
      OccursIff(s, found.value, word);
      assert MentionsAt(s, found.value, word);
    }
    if Mentions(s, word) {
      var j: nat :| MentionsAt(s, j, word);
      OccursIff(s, j, word);
    }
  }

  /** After the first words, a text is refused exactly when AS does not stand in it between two
      blanks, in some case. */
  lemma MissingAsIff(create: string, spaces: string, rest: string)
    requires SameUpToCase(create, "CREATE MATERIALIZED VIEW") && AllSpace(spaces) && IsTrimmed(rest)
    ensures ParseCreateMv(create + spaces + rest) == MissingAs <==> !Mentions(rest, " AS ")
  {
    SpacedHead(create, spaces, rest);
    AsIsUpper();
    FindIff(rest, AS);
  }

  lemma SpacedHead(create: string, spaces: string, rest: string)
    requires SameUpToCase(create, "CREATE MATERIALIZED VIEW") && AllSpace(spaces) && IsTrimmed(rest)
    ensures ParseCreateMv(create + spaces + rest) == ParseAfterCreate(rest) && FirstWord(rest) != ""
  {
    var text := create + spaces + rest;
    SameUpToCaseIff(create, CREATE);
    CreateIsUpper();
    FirstLetter(create);
    assert text[0] == create[0] && text[|text| - 1] == rest[|rest| - 1];
    assert Trim(text) == text;
    assert Upper(text)[..|CREATE|] == Upper(create);
    assert text[|CREATE|..] == spaces + rest;
    TrimStartOff(spaces, rest);
  }

  lemma AsIsUpper()
    ensures Upper(AS) == AS && Upper(WITH_INCREMENTAL) == WITH_INCREMENTAL && Upper(WITH_MANUAL) == WITH_MANUAL
  {
  }

  /** The mode is manual exactly when WITH MANUAL stands between name and AS and WITH INCREMENTAL
      does not. */
  lemma ManualIff(between: string)
    ensures ModeOf(between) == Manual <==> Mentions(between, "WITH MANUAL") && !Mentions(between, "WITH INCREMENTAL")
  {
    AsIsUpper();
    FindIff(between, WITH_INCREMENTAL);
    FindIff(between, WITH_MANUAL);
  }
}
