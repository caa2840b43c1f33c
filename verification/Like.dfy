/** SQLite's LIKE with an escape character, and the searches written in terms of it. */
module Like {
  import opened Text
  import opened HitOrder
  import opened RangeScan

  /** LIKE folds the case of ASCII letters only. */
  function AsciiFold(c: char): char {
    if 'A' <= c <= 'Z' then (c as int + 32) as char else c
  }

  function FoldAscii(s: string): string {
    FoldCase(AsciiFold, s)
  }

  /** `s LIKE pattern ESCAPE '\'`. A trailing escape matches nothing. */
  predicate LikeMatch(pattern: string, s: string)
    decreases |pattern|, |s|
  {
    if pattern == "" then s == ""
    else if pattern[0] == '%' then LikeMatch(pattern[1..], s) || (s != "" && LikeMatch(pattern, s[1..]))
    else if pattern[0] == '_' then s != "" && LikeMatch(pattern[1..], s[1..])
    else if pattern[0] == '\\' then
      |pattern| > 1 && s != "" && AsciiFold(pattern[1]) == AsciiFold(s[0]) && LikeMatch(pattern[2..], s[1..])
    else s != "" && AsciiFold(pattern[0]) == AsciiFold(s[0]) && LikeMatch(pattern[1..], s[1..])
  }

  predicate IsLikeSpecial(c: char) {
    c == '\\' || c == '%' || c == '_'
  }

  function EscapeChar(c: char): string {
    if IsLikeSpecial(c) then ['\\', c] else [c]
  }

  function Escaped(s: string): string {
    if s == "" then "" else EscapeChar(s[0]) + Escaped(s[1..])
  }

  lemma {:induction false} EscapedSnoc(s: string, c: char)
    ensures Escaped(s + [c]) == Escaped(s) + EscapeChar(c)
  {
    if s == "" {
      assert s + [c] == [c] && ([c])[1..] == "";
      assert EscapeChar(c) + "" == EscapeChar(c) && "" + EscapeChar(c) == EscapeChar(c);
    } else {
      assert (s + [c])[1..] == s[1..] + [c];
      EscapedSnoc(s[1..], c);
    }
  }

  method EscapeLike(s: string) returns (out: string)
    ensures out == Escaped(s)
  {
    out := "";
    for i := 0 to |s|
      invariant out == Escaped(s[..i])
    {
      var c := s[i];
      EscapedSnoc(s[..i], c);
      assert s[..i + 1] == s[..i] + [c];
      if c == '\\' || c == '%' || c == '_' {
        out := out + ['\\'];
        out := out + [c];
      } else {
        out := out + [c];
      }
    }
    assert s[..|s|] == s;
  }

  // ---------------------------------------------------------------------------
  // The pattern '%' + escaped + '%'
  // ---------------------------------------------------------------------------

  lemma PercentMatchesAll(s: string)
    ensures LikeMatch("%", s)
  {
    assert ("%")[1..] == "";
    if s != "" { PercentMatchesAll(s[1..]); }
  }

  /** Escaped text followed by '%' matches the strings that start with the text, whatever it contains. */
  lemma {:induction false} EscapedIsLiteral(q: string, s: string)
    ensures LikeMatch(Escaped(q) + "%", s) <==> HasPrefix(FoldAscii(s), FoldAscii(q))
  {
    if q == "" {
      assert Escaped(q) + "%" == "%";
      PercentMatchesAll(s);
    } else {
      var p := Escaped(q) + "%";
      var rest := Escaped(q[1..]) + "%";
      if IsLikeSpecial(q[0]) {
        assert p == ['\\', q[0]] + rest && p[2..] == rest;
      } else {
        assert p == [q[0]] + rest && p[1..] == rest;
      }
      if s != "" {
        EscapedIsLiteral(q[1..], s[1..]);
        FoldPrefixStep(s, q);
      }
    }
  }

  lemma FoldPrefixStep(s: string, q: string)
    requires s != "" && q != ""
    ensures HasPrefix(FoldAscii(s), FoldAscii(q)) <==>
              AsciiFold(q[0]) == AsciiFold(s[0]) && HasPrefix(FoldAscii(s[1..]), FoldAscii(q[1..]))
  {
    var fs, fq := FoldAscii(s), FoldAscii(q);
    assert FoldAscii(s[1..]) == fs[1..] && FoldAscii(q[1..]) == fq[1..];
    if |q| <= |s| {
      assert fs[..|fq|] == [fs[0]] + fs[1..][..|fq| - 1];
      assert fq == [fq[0]] + fq[1..];
    }
  }

  /** Containment up to ASCII case. */
  ghost predicate ContainsFolded(s: string, q: string) {
    Contains(FoldAscii(s), FoldAscii(q))
  }

  lemma ContainsStep(s: string, q: string)
    ensures Contains(s, q) <==> HasPrefix(s, q) || (s != "" && Contains(s[1..], q))
  {
    if Contains(s, q) {
      var i: nat :| OccursAt(s, q, i);
      if i > 0 {
        assert s[1..][i - 1..i - 1 + |q|] == s[i..i + |q|];
        assert OccursAt(s[1..], q, i - 1);
      }
    }
    if HasPrefix(s, q) {
      assert s[0..0 + |q|] == s[..|q|];
      assert OccursAt(s, q, 0);
    }
    if s != "" && Contains(s[1..], q) {
      var i: nat :| OccursAt(s[1..], q, i);
      assert s[i + 1..i + 1 + |q|] == s[1..][i..i + |q|];
      assert OccursAt(s, q, i + 1);
    }
  }

  lemma {:induction false} PercentScans(p: string, q: string, s: string)
    requires p == "%" + (Escaped(q) + "%")
    ensures LikeMatch(p, s) <==> ContainsFolded(s, q)
    decreases |s|
  {
    assert p[1..] == Escaped(q) + "%";
    EscapedIsLiteral(q, s);
    ContainsStep(FoldAscii(s), FoldAscii(q));
    if s != "" {
      assert FoldAscii(s[1..]) == FoldAscii(s)[1..];
      PercentScans(p, q, s[1..]);
    }
  }

  function ContainsPattern(q: string): string {
    "%" + (Escaped(q) + "%")
  }

  /** LIKE with the escaped query between '%' is literal containment up to ASCII case, for every query. */
  lemma LikeIsContainment(q: string, s: string)
    ensures LikeMatch(ContainsPattern(q), s) <==> ContainsFolded(s, q)
  {
    PercentScans(ContainsPattern(q), q, s);
  }

  // ---------------------------------------------------------------------------
  // The pattern '%' + escaped
  // ---------------------------------------------------------------------------

  /** Escaped text alone matches the strings that are the text. */
  lemma {:induction false} EscapedIsWhole(q: string, s: string)
    ensures LikeMatch(Escaped(q), s) <==> FoldAscii(s) == FoldAscii(q)
  {
    if q != "" {
      var p, rest := Escaped(q), Escaped(q[1..]);
      if IsLikeSpecial(q[0]) {
        assert p == ['\\', q[0]] + rest && p[2..] == rest;
      } else {
        assert p == [q[0]] + rest && p[1..] == rest;
      }
      if s != "" {
        EscapedIsWhole(q[1..], s[1..]);
        FoldedCons(s);
        FoldedCons(q);
      }
    }
  }

  lemma FoldedCons(s: string)
    requires s != ""
    ensures FoldAscii(s) == [AsciiFold(s[0])] + FoldAscii(s[1..])
  {
  }

  lemma {:induction false} PercentScansToEnd(q: string, s: string)
    ensures LikeMatch("%" + Escaped(q), s) <==> HasSuffix(FoldAscii(s), FoldAscii(q))
    decreases |s|
  {
    var p := "%" + Escaped(q);
    assert p[1..] == Escaped(q);
    EscapedIsWhole(q, s);
    SuffixStep(FoldAscii(s), FoldAscii(q));
    if s != "" {
      assert FoldAscii(s[1..]) == FoldAscii(s)[1..];
      PercentScansToEnd(q, s[1..]);
    }
  }

  lemma SuffixStep(s: string, q: string)
    ensures HasSuffix(s, q) <==> s == q || (s != "" && HasSuffix(s[1..], q))
  {
    if |q| < |s| { assert s[1..][|s| - 1 - |q|..] == s[|s| - |q|..]; }
    if |q| == |s| { assert s[0..] == s; }
  }

  predicate IsAsciiLetter(c: char) {
    'A' <= c <= 'Z' || 'a' <= c <= 'z'
  }

  /** The letter in the other case. */
  function OtherCase(c: char): char
    requires IsAsciiLetter(c)
  {
    if 'a' <= c then (c as int - 32) as char else (c as int + 32) as char
  }

  /** Escaped and after '%', LIKE finds the same text ends as an exact comparison just when the query has no letter. */
  lemma LikeIsSuffixExactly(q: string)
    ensures (forall v :: LikeMatch("%" + Escaped(q), v) <==> HasSuffix(v, q)) <==>
            forall i :: 0 <= i < |q| ==> !IsAsciiLetter(q[i])
  {
    if i :| 0 <= i < |q| && IsAsciiLetter(q[i]) {
      var v := q[i := OtherCase(q[i])];
      OtherCaseDiffers(q, i);
      assert LikeMatch("%" + Escaped(q), v) && !HasSuffix(v, q);
    } else {
      forall v ensures LikeMatch("%" + Escaped(q), v) <==> HasSuffix(v, q) {
        PercentScansToEnd(q, v);
        LetterlessSuffix(v, q);
      }
    }
  }

  /** The witness: the query itself with one letter in the other case. */
  lemma OtherCaseDiffers(q: string, i: nat)
    requires i < |q| && IsAsciiLetter(q[i])
    ensures var v := q[i := OtherCase(q[i])]; LikeMatch("%" + Escaped(q), v) && !HasSuffix(v, q)
  {
    var v := q[i := OtherCase(q[i])];
    assert AsciiFold(v[i]) == AsciiFold(q[i]);
    assert FoldAscii(v) == FoldAscii(q);
    assert FoldAscii(v)[0..] == FoldAscii(v);
    PercentScansToEnd(q, v);
    assert v[0..] == v && v[i] != q[i];
  }

  lemma LetterlessSuffix(v: string, q: string)
    requires forall i :: 0 <= i < |q| ==> !IsAsciiLetter(q[i])
    ensures HasSuffix(FoldAscii(v), FoldAscii(q)) <==> HasSuffix(v, q)
  {
    if |q| <= |v| {
      var n := |v| - |q|;
      assert FoldAscii(v)[n..] == FoldAscii(v[n..]);
      if FoldAscii(v[n..]) == FoldAscii(q) {
        forall i | 0 <= i < |q| ensures v[n..][i] == q[i] {
          assert FoldAscii(v[n..])[i] == FoldAscii(q)[i];
        }
      }
    }
  }

  // ---------------------------------------------------------------------------
  // All-terms search
  // ---------------------------------------------------------------------------

  ghost predicate HasAllTerms(doc: string, terms: seq<string>) {
    forall t :: t in terms ==> ContainsFolded(doc, t)
  }

  /** The conjunction of one LIKE per bound pattern. */
  predicate LikeAll(patterns: seq<string>, doc: string) {
    forall k :: 0 <= k < |patterns| ==> LikeMatch(patterns[k], doc)
  }

  function LikeAllIds(norm: map<int, string>, patterns: seq<string>): set<int> {
    set id | id in norm && LikeAll(patterns, norm[id])
  }

  ghost function AllTermsIds(norm: map<int, string>, q: string): set<int> {
    set id | id in norm && HasAllTerms(norm[id], Words(q))
  }

  method TermPatterns(q: string) returns (patterns: seq<string>)
    ensures |patterns| == |Words(q)|
    ensures forall k :: 0 <= k < |patterns| ==> patterns[k] == ContainsPattern(Words(q)[k])
  {
    patterns := [];
    var terms := Words(q);
    for i := 0 to |terms|
      invariant |patterns| == i
      invariant forall k :: 0 <= k < i ==> patterns[k] == ContainsPattern(terms[k])
    {
      var escaped := EscapeLike(terms[i]);
      patterns := patterns + ["%" + (escaped + "%")];
    }
  }

  lemma LikeAllIsAllTerms(norm: map<int, string>, q: string, patterns: seq<string>)
    requires |patterns| == |Words(q)|
    requires forall k :: 0 <= k < |patterns| ==> patterns[k] == ContainsPattern(Words(q)[k])
    ensures LikeAllIds(norm, patterns) == AllTermsIds(norm, q)
  {
    forall id | id in norm ensures LikeAll(patterns, norm[id]) <==> HasAllTerms(norm[id], Words(q)) {
      var doc := norm[id];
      forall k | 0 <= k < |patterns| ensures LikeMatch(patterns[k], doc) <==> ContainsFolded(doc, Words(q)[k]) {
        LikeIsContainment(Words(q)[k], doc);
      }
      if LikeAll(patterns, doc) {
        forall t | t in Words(q) ensures ContainsFolded(doc, t) {
          var k :| 0 <= k < |Words(q)| && Words(q)[k] == t;
          assert LikeMatch(patterns[k], doc);
        }
      }
    }
  }

  method AllTermsSearch(norm: map<int, string>, q: string, limit: nat, offset: nat) returns (hits: seq<Hit>)
    ensures Words(q) == [] ==> hits == []
    ensures Words(q) != [] ==> Selects(hits, AllTermsIds(norm, q), offset, limit)
  {
    var patterns := TermPatterns(q);
    if patterns == [] { return []; }
    LikeAllIsAllTerms(norm, q, patterns);
    hits := SelectRows(LikeAllIds(norm, patterns), offset, limit);
  }

  method AllTermsCount(norm: map<int, string>, q: string) returns (n: nat)
    ensures n == if Words(q) == [] then 0 else |AllTermsIds(norm, q)|
  {
    var patterns := TermPatterns(q);
    if patterns == [] { return 0; }
    LikeAllIsAllTerms(norm, q, patterns);
    n := |LikeAllIds(norm, patterns)|;
  }

  /** Neither the order of the terms nor repeating one matters. */
  lemma AllTermsIgnoresOrder(norm: map<int, string>, q: string, r: string)
    requires forall w :: w in Words(q) <==> w in Words(r)
    ensures AllTermsIds(norm, q) == AllTermsIds(norm, r)
  {
    forall id | id in norm ensures HasAllTerms(norm[id], Words(q)) <==> HasAllTerms(norm[id], Words(r)) {
      if HasAllTerms(norm[id], Words(q)) { assert forall t :: t in Words(r) ==> t in Words(q); }
      if HasAllTerms(norm[id], Words(r)) { assert forall t :: t in Words(q) ==> t in Words(r); }
    }
  }

  lemma FoldOccurs(s: string, t: string, i: nat)
    requires OccursAt(s, t, i)
    ensures OccursAt(FoldAscii(s), FoldAscii(t), i)
  {
    var here := FoldAscii(s)[i..i + |t|];
    forall k | 0 <= k < |t| ensures here[k] == FoldAscii(t)[k] {
      assert s[i..i + |t|][k] == t[k];
    }
  }

  /** Every document that contains the whole query contains all its terms. */
  lemma WholeQueryHasAllTerms(doc: string, q: string)
    requires ContainsFolded(doc, q)
    ensures HasAllTerms(doc, Words(q))
  {
    forall t | t in Words(q) ensures ContainsFolded(doc, t) {
      WordsOccur(q, t);
      var i: nat :| OccursAt(q, t, i);
      FoldOccurs(q, t, i);
      ContainsTransitive(FoldAscii(doc), FoldAscii(q), FoldAscii(t));
    }
  }
}
