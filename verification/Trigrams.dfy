/** Character trigrams, their Jaccard similarity, and the FTS5 queries built from them. */
module Trigrams {
  import opened Wrappers
  import opened Text
  import opened Utf8

  function TrigramAt(s: string, i: nat): string
    requires i + 3 <= |s|
  {
    s[i..i + 3]
  }

  /** The set of three-character windows. */
  function TrigramSet(s: string): set<string> {
    set i: nat | i + 3 <= |s| :: TrigramAt(s, i)
  }

  method CollectTrigrams(s: string) returns (grams: set<string>)
    ensures grams == TrigramSet(s)
  {
    grams := {};
    if |s| < 3 { return; }
    for i := 0 to |s| - 2
      invariant grams == set k: nat | k < i && k + 3 <= |s| :: TrigramAt(s, k)
    {
      grams := grams + {TrigramAt(s, i)};
    }
  }

  /** A string has a trigram exactly when the trigram occurs in it. */
  lemma TrigramOccurs(s: string, t: string)
    requires |t| == 3
    ensures t in TrigramSet(s) <==> Contains(s, t)
  {
    if t in TrigramSet(s) {
      var i: nat :| i + 3 <= |s| && TrigramAt(s, i) == t;
      assert OccursAt(s, t, i);
    }
    if Contains(s, t) {
      var i: nat :| OccursAt(s, t, i);
      assert TrigramAt(s, i) == t;
    }
  }

  // ---------------------------------------------------------------------------
  // Similarity
  // ---------------------------------------------------------------------------

  function Common(a: set<string>, b: set<string>): nat {
    |a * b|
  }

  lemma CommonAtMost(a: set<string>, b: set<string>)
    ensures Common(a, b) <= |a| && Common(a, b) <= |b|
  {
    assert a == a * b + (a - b) && b == a * b + (b - a);
  }

  function Union(a: set<string>, b: set<string>): nat {
    CommonAtMost(a, b);
    |a| + |b| - Common(a, b)
  }

  function Jaccard(a: set<string>, b: set<string>): real {
    var union := Union(a, b);
    if union == 0 then 0.0 else Common(a, b) as real / union as real
  }

  const THRESHOLD: real := 0.3

  lemma ScaledThreshold(r: real, d: real)
    requires d > 0.0
    ensures r >= 0.3 <==> r * d >= 0.3 * d
  {
    if r >= 0.3 {
      assert (r - 0.3) * d >= 0.0;
    } else {
      assert (0.3 - r) * d > 0.0;
    }
  }

  lemma QuotientTimes(x: real, d: real)
    requires d > 0.0
    ensures x / d * d == x
  {
  }

  lemma RatioThreshold(n: nat, d: nat)
    requires d > 0
    ensures n as real / d as real >= 0.3 <==> 10 * n >= 3 * d
  {
    var x, y := n as real, d as real;
    QuotientTimes(x, y);
    ScaledThreshold(x / y, y);
    assert x >= 0.3 * y <==> 10 * n >= 3 * d;
  }

  lemma RatioOne(n: nat, d: nat)
    requires d > 0
    ensures n as real / d as real == 1.0 <==> n == d
  {
    var r := n as real / d as real;
    assert r * d as real == n as real;
  }

  lemma UnionSize(a: set<string>, b: set<string>)
    ensures Union(a, b) == |a + b| && Common(a, b) <= |a + b|
  {
    CommonAtMost(a, b);
    assert a + b == a + (b - a) && b == a * b + (b - a);
  }

  /** The threshold in whole numbers. */
  lemma JaccardThreshold(a: set<string>, b: set<string>)
    ensures Jaccard(a, b) >= THRESHOLD <==> a + b != {} && 10 * |a * b| >= 3 * |a + b|
  {
    UnionSize(a, b);
    if Union(a, b) > 0 { RatioThreshold(Common(a, b), Union(a, b)); }
  }

  /** The similarity is 1 exactly for equal, non-empty sets. */
  lemma JaccardPerfect(a: set<string>, b: set<string>)
    ensures Jaccard(a, b) == 1.0 <==> a == b && a != {}
  {
    UnionSize(a, b);
    if Union(a, b) > 0 { RatioOne(Common(a, b), Union(a, b)); }
    if Common(a, b) == |a + b| {
      SubsetSize(a * b, a + b);
      assert a <= a * b && b <= a * b;
    }
    if a == b { assert a * b == a && a + b == a; }
  }

  /** Two sets that are similar enough share a trigram. */
  lemma SimilarSharesTrigram(a: set<string>, b: set<string>)
    requires Jaccard(a, b) >= THRESHOLD
    ensures exists t: string :: t in a && t in b
  {
    JaccardThreshold(a, b);
    assert |a + b| > 0;
    assert |a * b| > 0;
    var t :| t in a * b;
  }

  // ---------------------------------------------------------------------------
  // FTS5 query syntax: quoted strings joined by OR
  // ---------------------------------------------------------------------------

  function Doubled(s: string): string {
    if s == "" then "" else (if s[0] == '"' then "\"\"" else [s[0]]) + Doubled(s[1..])
  }

  /** `fts5_phrase`: the text as one quoted string. */
  function Quoted(s: string): string {
    "\"" + (Doubled(s) + "\"")
  }

  datatype Scan = Scan(text: string, rest: string)

  /** Reads a quoted string whose opening quote has been consumed. */
  function ReadQuoted(s: string): Option<Scan> {
    if s == "" then None
    else if s[0] == '"' then
      if |s| > 1 && s[1] == '"' then Prepend('"', ReadQuoted(s[2..])) else Some(Scan("", s[1..]))
    else Prepend(s[0], ReadQuoted(s[1..]))
  }

  function Prepend(c: char, scan: Option<Scan>): Option<Scan> {
    match scan
    case None => None
    case Some(Scan(text, rest)) => Some(Scan([c] + text, rest))
  }

  predicate IsFtsSpace(c: char) {
    c == ' ' || c == '\t' || c == '\n' || c == '\r'
  }

  function SkipSpaces(s: string): (r: string)
    ensures |r| <= |s|
  {
    if s != "" && IsFtsSpace(s[0]) then SkipSpaces(s[1..]) else s
  }

  lemma ReadQuotedShorter(s: string)
    ensures ReadQuoted(s).Some? ==> |ReadQuoted(s).value.rest| < |s|
  {
  }

  /** The phrases of a query made of quoted strings and the OR operator; nothing for any other query. */
  function ParseOr(query: string): Option<seq<string>>
    decreases |query|
  {
    var s := SkipSpaces(query);
    if s == "" || s[0] != '"' then None
    else
      var scan := ReadQuoted(s[1..]);
      if scan.None? then None
      else
        ReadQuotedShorter(s[1..]);
        var rest := SkipSpaces(scan.value.rest);
        if rest == "" then Some([scan.value.text])
        else if |rest| > 2 && rest[..2] == "OR" && IsFtsSpace(rest[2]) then
          var more := ParseOr(rest[2..]);
          if more.None? then None else Some([scan.value.text] + more.value)
        else None
  }

  lemma {:induction false} ReadQuotedDoubled(s: string, rest: string)
    requires rest == "" || rest[0] != '"'
    ensures ReadQuoted(Doubled(s) + "\"" + rest) == Some(Scan(s, rest))
  {
    var whole := Doubled(s) + "\"" + rest;
    if s == "" {
      assert whole[1..] == rest;
    } else {
      var tail := Doubled(s[1..]) + "\"" + rest;
      ReadQuotedDoubled(s[1..], rest);
      if s[0] == '"' {
        assert whole[2..] == tail;
      } else {
        assert whole[1..] == tail;
      }
      assert [s[0]] + s[1..] == s;
    }
  }

  /** The expression `build_fts5_or` joins from its phrases. */
  function OrExpression(phrases: seq<string>): string
    requires phrases != []
  {
    if |phrases| == 1 then Quoted(phrases[0]) else Quoted(phrases[0]) + (" OR " + OrExpression(phrases[1..]))
  }

  lemma QuotedThen(s: string, rest: string)
    requires rest == "" || rest[0] == ' '
    ensures var whole := Quoted(s) + rest;
            && SkipSpaces(whole) == whole && whole[0] == '"'
            && ReadQuoted(whole[1..]) == Some(Scan(s, rest))
  {
    ReadQuotedDoubled(s, rest);
    assert (Quoted(s) + rest)[1..] == Doubled(s) + "\"" + rest;
  }

  lemma ParseStep(p: string, tail: string)
    ensures ParseOr(Quoted(p)) == Some([p])
    ensures ParseOr(Quoted(p) + (" OR " + tail)) ==
              if ParseOr(tail).None? then None else Some([p] + ParseOr(tail).value)
  {
    QuotedThen(p, "");
    assert Quoted(p) + "" == Quoted(p);
    var rest := " OR " + tail;
    QuotedThen(p, rest);
    assert rest[1..] == "OR " + tail;
    var op := "OR " + tail;
    assert SkipSpaces(rest) == op;
    assert op[..2] == "OR" && op[2] == ' ' && op[2..] == " " + tail;
    ParseIgnoresLeadingSpace(tail);
  }

  /** Parsing the built expression gives back exactly its phrases, quotes, spaces and ORs inside them included. */
  lemma {:induction false} ParseOfOr(phrases: seq<string>)
    requires phrases != []
    ensures ParseOr(OrExpression(phrases)) == Some(phrases)
  {
    if |phrases| == 1 {
      ParseStep(phrases[0], "");
      assert phrases == [phrases[0]];
    } else {
      ParseStep(phrases[0], OrExpression(phrases[1..]));
      ParseOfOr(phrases[1..]);
      assert phrases == [phrases[0]] + phrases[1..];
    }
  }

  lemma ParseIgnoresLeadingSpace(s: string)
    ensures ParseOr(" " + s) == ParseOr(s)
  {
    assert (" " + s)[1..] == s;
  }

  /** A quoted phrase is read as that one phrase, never as query syntax. */
  lemma PhraseIsLiteral(q: string)
    ensures ParseOr(Quoted(q)) == Some([q])
  {
    ParseOfOr([q]);
  }

  // ---------------------------------------------------------------------------
  // The trigram tokenizer: a phrase match is a substring match
  // ---------------------------------------------------------------------------

  /** The tokens of a text, one per window, after case folding. */
  function Tokens(fold: char -> char, s: string): (r: seq<string>)
    ensures |r| == if |s| < 3 then 0 else |s| - 2
  {
    var t := FoldCase(fold, s);
    seq(if |s| < 3 then 0 else |s| - 2, i requires 0 <= i && i + 3 <= |t| => t[i..i + 3])
  }

  predicate TokensAt(d: seq<string>, p: seq<string>, i: nat) {
    i + |p| <= |d| && forall k :: 0 <= k < |p| ==> d[i + k] == p[k]
  }

  /** The phrase's tokens occur in the document at consecutive positions; an empty phrase matches nothing. */
  predicate PhraseMatches(fold: char -> char, doc: string, phrase: string) {
    var d, p := Tokens(fold, doc), Tokens(fold, phrase);
    p != [] && exists i :: 0 <= i <= |d| && TokensAt(d, p, i)
  }

  lemma SameAt(s: string, q: string, i: nat)
    requires i + |q| <= |s|
    ensures OccursAt(s, q, i) <==> forall k :: 0 <= k < |q| ==> s[i + k] == q[k]
  {
    var here := s[i..i + |q|];
    assert forall k :: 0 <= k < |q| ==> here[k] == s[i + k];
    if OccursAt(s, q, i) { assert forall k :: 0 <= k < |q| ==> here[k] == q[k]; }
  }

  lemma TokenIsWindow(fold: char -> char, s: string, k: nat)
    requires k + 3 <= |s|
    ensures Tokens(fold, s)[k] == FoldCase(fold, s)[k..k + 3]
  {
  }

  lemma TokenAgrees(fold: char -> char, doc: string, q: string, i: nat, k: nat)
    requires k + 3 <= |q| && i + |q| <= |doc|
    ensures var s, t := FoldCase(fold, doc), FoldCase(fold, q);
            Tokens(fold, doc)[i + k] == Tokens(fold, q)[k] <==>
              s[i + k] == t[k] && s[i + k + 1] == t[k + 1] && s[i + k + 2] == t[k + 2]
  {
    TokenIsWindow(fold, doc, i + k);
    TokenIsWindow(fold, q, k);
    SameWindow(FoldCase(fold, doc), FoldCase(fold, q), i, k);
  }

  lemma TokensAgree(fold: char -> char, doc: string, q: string, i: nat)
    requires |q| >= 3 && i + |q| <= |doc|
    ensures TokensAt(Tokens(fold, doc), Tokens(fold, q), i) <==> OccursAt(FoldCase(fold, doc), FoldCase(fold, q), i)
  {
    var d, p := Tokens(fold, doc), Tokens(fold, q);
    var s, t := FoldCase(fold, doc), FoldCase(fold, q);
    SameAt(s, t, i);
    if TokensAt(d, p, i) {
      forall k | 0 <= k < |t| ensures s[i + k] == t[k] {
        var w := if k + 3 <= |t| then k else |t| - 3;
        assert d[i + w] == p[w];
        TokenAgrees(fold, doc, q, i, w);
      }
    }
    if OccursAt(s, t, i) {
      forall k | 0 <= k < |p| ensures d[i + k] == p[k] {
        assert s[i + k] == t[k] && s[i + (k + 1)] == t[k + 1] && s[i + (k + 2)] == t[k + 2];
        TokenAgrees(fold, doc, q, i, k);
      }
    }
  }

  lemma SameWindow(s: string, t: string, i: nat, k: nat)
    requires k + 3 <= |t| && i + k + 3 <= |s|
    ensures s[i + k..i + k + 3] == t[k..k + 3] <==>
            s[i + k] == t[k] && s[i + k + 1] == t[k + 1] && s[i + k + 2] == t[k + 2]
  {
    var x, y := s[i + k..i + k + 3], t[k..k + 3];
    assert x[0] == s[i + k] && x[1] == s[i + k + 1] && x[2] == s[i + k + 2];
    assert y[0] == t[k] && y[1] == t[k + 1] && y[2] == t[k + 2];
  }

  /** For three characters or more, a trigram phrase matches exactly the documents that contain the text. */
  lemma PhraseIsContainment(fold: char -> char, doc: string, q: string)
    requires |q| >= 3
    ensures PhraseMatches(fold, doc, q) <==> Contains(FoldCase(fold, doc), FoldCase(fold, q))
  {
    var d, p := Tokens(fold, doc), Tokens(fold, q);
    if PhraseMatches(fold, doc, q) {
      var i :| 0 <= i <= |d| && TokensAt(d, p, i);
      TokensAgree(fold, doc, q, i);
    }
    if Contains(FoldCase(fold, doc), FoldCase(fold, q)) {
      var i: nat :| OccursAt(FoldCase(fold, doc), FoldCase(fold, q), i);
      TokensAgree(fold, doc, q, i);
    }
  }

  /** Whatever the case folding, a document that contains the text literally is matched. */
  lemma LiteralIsMatched(fold: char -> char, doc: string, q: string)
    requires |q| >= 3 && Contains(doc, q)
    ensures PhraseMatches(fold, doc, q)
  {
    var i: nat :| OccursAt(doc, q, i);
    var here := FoldCase(fold, doc)[i..i + |q|];
    forall k | 0 <= k < |q| ensures here[k] == FoldCase(fold, q)[k] {
      assert doc[i..i + |q|][k] == q[k];
    }
    assert OccursAt(FoldCase(fold, doc), FoldCase(fold, q), i);
    PhraseIsContainment(fold, doc, q);
  }

  /** `docs MATCH query`: one of the query's phrases matches. */
  predicate Matches(fold: char -> char, doc: string, query: string) {
    ParseOr(query).Some? && exists p :: p in ParseOr(query).value && PhraseMatches(fold, doc, p)
  }

  // ---------------------------------------------------------------------------
  // Building the pre-filter
  // ---------------------------------------------------------------------------

  predicate SortedStrings(s: seq<string>) {
    forall i, j :: 0 <= i < j < |s| ==> Less(s[i], s[j])
  }

  lemma LessTransitive(a: string, b: string, c: string)
    requires Less(a, b) && Less(b, c)
    ensures Less(a, c)
  {
    if a != "" && a[0] == b[0] && b[0] == c[0] { LessTransitive(a[1..], b[1..], c[1..]); }
  }

  function InsertString(x: string, s: seq<string>): (r: seq<string>)
    requires SortedStrings(s) && x !in s
    ensures SortedStrings(r)
    ensures forall y :: y in r <==> y == x || y in s
  {
    if s == [] then [x]
    else if Less(x, s[0]) then
      InsertFirst(x, s);
      [x] + s
    else
      LessTotal(x, s[0]);
      assert s == [s[0]] + s[1..];
      var rest := InsertString(x, s[1..]);
      SortedStringsCons(s[0], rest);
      [s[0]] + rest
  }

  lemma InsertFirst(x: string, s: seq<string>)
    requires SortedStrings(s) && s != [] && Less(x, s[0])
    ensures SortedStrings([x] + s)
  {
    forall y | y in s ensures Less(x, y) {
      var k :| 0 <= k < |s| && s[k] == y;
      if k > 0 { LessTransitive(x, s[0], s[k]); }
    }
    SortedStringsCons(x, s);
  }

  lemma SortedStringsCons(x: string, s: seq<string>)
    requires SortedStrings(s) && forall y :: y in s ==> Less(x, y)
    ensures SortedStrings([x] + s)
  {
    var r := [x] + s;
    assert forall i :: 1 <= i < |r| ==> r[i] == s[i - 1];
  }

  method SortTrigrams(grams: set<string>) returns (sorted: seq<string>)
    ensures SortedStrings(sorted)
    ensures forall t :: t in sorted <==> t in grams
  {
    sorted := [];
    var rest := grams;
    while rest != {}
      invariant rest <= grams
      invariant SortedStrings(sorted) && forall t :: t in sorted <==> t in grams - rest
      decreases rest
    {
      var t :| t in rest;
      rest := rest - {t};
      sorted := InsertString(t, sorted);
    }
  }

  /** The OR of all trigrams, in lexicographic order; nothing for an empty set. */
  method BuildFts5Or(grams: set<string>) returns (query: Option<string>)
    ensures grams == {} <==> query == None
    ensures query.Some? ==>
              && ParseOr(query.value).Some?
              && SortedStrings(ParseOr(query.value).value)
              && forall t :: t in ParseOr(query.value).value <==> t in grams
  {
    if grams == {} { return None; }
    var sorted := SortTrigrams(grams);
    assert sorted != [] by { assert exists t :: t in grams; }
    ParseOfOr(sorted);
    query := Some(OrExpression(sorted));
  }

  /** The pre-filter keeps every document that is similar enough. */
  lemma PreFilterIsComplete(fold: char -> char, q: string, doc: string, query: string)
    requires ParseOr(query).Some? && forall t :: t in ParseOr(query).value <==> t in TrigramSet(q)
    requires Jaccard(TrigramSet(q), TrigramSet(doc)) >= THRESHOLD
    ensures Matches(fold, doc, query)
  {
    SimilarSharesTrigram(TrigramSet(q), TrigramSet(doc));
    var t: string :| t in TrigramSet(q) && t in TrigramSet(doc);
    assert |t| == 3;
    TrigramOccurs(doc, t);
    LiteralIsMatched(fold, doc, t);
  }
}
