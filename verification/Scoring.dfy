/** The ranked strategies: word edit distance and trigram similarity, each as scan, rank, truncate. */
module Scoring {
  import opened Wrappers
  import opened Text
  import opened HitOrder
  import opened EditDistance
  import opened Trigrams

  /** A ranked strategy together with its (normalized) query. */
  datatype Scorer = ByWords(kernel: Kernel, query: string) | ByTrigrams(query: string)
  {
    /** The score of a document, if it is a hit. */
    function Score(doc: string): Option<real> {
      match this
      case ByWords(k, q) =>
        var best := BestWord(k, q, Words(doc), MaxDistance(|q|));
        if best.None? then None else Some(best.value as real)
      case ByTrigrams(q) =>
        var sim := Similarity(q, doc);
        if q != "" && sim >= THRESHOLD then Some(1.0 - sim) else None
    }
  }

  /** One edit per four characters, at least one. */
  function MaxDistance(chars: nat): nat {
    if chars / 4 > 1 then chars / 4 else 1
  }

  /** The smallest distance within `max` from the query to any of the words. */
  function BestWord(k: Kernel, q: string, words: seq<string>, max: nat): Option<nat> {
    if words == [] then None
    else Better(BestWord(k, q, words[..|words| - 1], max), Within(k, q, words[|words| - 1], max))
  }

  function Better(x: Option<nat>, y: Option<nat>): Option<nat> {
    if x.None? then y else if y.None? then x else Some(Min(x.value, y.value))
  }

  /** Exact comparison below three characters, Jaccard similarity of the trigram sets from there on. */
  function Similarity(q: string, doc: string): real {
    if |q| < 3 then (if q == doc then 1.0 else 0.0) else Jaccard(TrigramSet(q), TrigramSet(doc))
  }

  /** All hits among the documents. */
  function Hits(scorer: Scorer, norm: map<int, string>): set<Hit> {
    set id | id in norm && scorer.Score(norm[id]).Some? :: Hit(id, scorer.Score(norm[id]).value)
  }

  /** The complete ranking, best first. */
  ghost function FullRanking(scorer: Scorer, norm: map<int, string>): seq<Hit> {
    Ranking(Hits(scorer, norm))
  }

  // ---------------------------------------------------------------------------
  // What the best word means
  // ---------------------------------------------------------------------------

  /** `d` is the distance of the closest word, and close enough. */
  ghost predicate ClosestWord(k: Kernel, q: string, words: seq<string>, max: nat, d: nat) {
    && d <= max
    && (exists i :: 0 <= i < |words| && Distance(k, q, words[i]) == d)
    && (forall i :: 0 <= i < |words| ==> d <= Distance(k, q, words[i]))
  }

  ghost predicate AllFar(k: Kernel, q: string, words: seq<string>, max: nat) {
    forall i :: 0 <= i < |words| ==> max < Distance(k, q, words[i])
  }

  lemma {:induction false} BestWordIsClosest(k: Kernel, q: string, words: seq<string>, max: nat)
    ensures match BestWord(k, q, words, max)
            case Some(d) => ClosestWord(k, q, words, max, d)
            case None => AllFar(k, q, words, max)
  {
    hide Distance;
    if words != [] {
      var front, n := words[..|words| - 1], |words| - 1;
      var last := words[n];
      BestWordIsClosest(k, q, front, max);
      assert words == front + [last];
      assert forall i :: 0 <= i < n ==> words[i] == front[i];
      match BestWord(k, q, words, max) {
        case Some(d) =>
          if Distance(k, q, last) == d {
            assert Distance(k, q, words[n]) == d;
          } else {
            var i :| 0 <= i < n && Distance(k, q, front[i]) == d;
            assert Distance(k, q, words[i]) == d;
          }
        case None =>
      }
    }
  }

  lemma DistanceAllowed(chars: nat, d: nat)
    ensures d <= MaxDistance(chars) <==> d <= 1 || 4 * d <= chars
  {
  }

  lemma ClosestByWord(k: Kernel, q: string, words: seq<string>, max: nat, d: nat)
    ensures ClosestWord(k, q, words, max, d) <==>
            && d <= max
            && (exists w :: w in words && Distance(k, q, w) == d)
            && (forall w :: w in words ==> d <= Distance(k, q, w))
    ensures AllFar(k, q, words, max) <==> forall w :: w in words ==> Distance(k, q, w) > max
  {
    hide Distance;
    assert forall i :: 0 <= i < |words| ==> words[i] in words;
  }

  lemma OneClosest(k: Kernel, q: string, words: seq<string>, max: nat, d: nat, e: nat)
    requires ClosestWord(k, q, words, max, d)
    ensures ClosestWord(k, q, words, max, e) <==> d == e
    ensures !AllFar(k, q, words, max)
  {
    hide Distance;
  }

  /**
   * A document scores `d` exactly when `d` is the least distance from the query to one of its words and at most one
   * edit, or at most one per four characters of the query; it is no hit exactly when every word is farther than that.
   */
  lemma WordScoreMeaning(k: Kernel, q: string, doc: string, d: nat)
    ensures ByWords(k, q).Score(doc) == Some(d as real) <==>
            && (d <= 1 || 4 * d <= |q|)
            && (exists w :: w in Words(doc) && Distance(k, q, w) == d)
            && (forall w :: w in Words(doc) ==> d <= Distance(k, q, w))
    ensures ByWords(k, q).Score(doc) == None <==>
            forall w :: w in Words(doc) ==> Distance(k, q, w) > 1 && 4 * Distance(k, q, w) > |q|
  {
    hide Distance, Words, BestWord, MaxDistance, ClosestWord, AllFar;
    var words, max := Words(doc), MaxDistance(|q|);
    var best := BestWord(k, q, words, max);
    BestWordIsClosest(k, q, words, max);
    if best.Some? { OneClosest(k, q, words, max, best.value, d); }
    ClosestByWord(k, q, words, max, d);
    DistanceAllowed(|q|, d);
    forall w | w in words ensures Distance(k, q, w) <= max <==> Distance(k, q, w) <= 1 || 4 * Distance(k, q, w) <= |q| {
      DistanceAllowed(|q|, Distance(k, q, w));
    }
    if best.None? && ClosestWord(k, q, words, max, d) { OneClosest(k, q, words, max, d, d); }
  }

  lemma QuotientComplement(n: real, d: real, score: real)
    requires d > 0.0
    ensures score == 1.0 - n / d <==> score * d == d - n
  {
    QuotientTimes(n, d);
    var gap := score - (1.0 - n / d);
    assert gap * d == score * d - d + n;
    if gap > 0.0 {
      assert gap * d > 0.0;
    } else if gap < 0.0 {
      assert -gap * d > 0.0;
    }
  }

  lemma TrigramsAre(s: string, a: set<string>)
    requires forall w :: w in a <==> |w| == 3 && Contains(s, w)
    ensures a == TrigramSet(s)
  {
    forall w ensures w in a <==> w in TrigramSet(s) {
      if w in a || w in TrigramSet(s) { TrigramOccurs(s, w); }
    }
  }

  /**
   * With `a` and `b` the three-character parts of query and document, a query of three characters or more finds the
   * document if they share at least three tenths of all, and scores it the share they do not have in common. A shorter
   * query finds only itself, the empty one nothing.
   */
  lemma TrigramScoreMeaning(q: string, doc: string, a: set<string>, b: set<string>, score: real)
    requires forall w :: w in a <==> |w| == 3 && Contains(q, w)
    requires forall w :: w in b <==> |w| == 3 && Contains(doc, w)
    ensures q == "" ==> ByTrigrams(q).Score(doc) == None
    ensures 0 < |q| < 3 ==> ByTrigrams(q).Score(doc) == if q == doc then Some(0.0) else None
    ensures |q| >= 3 ==>
              && (ByTrigrams(q).Score(doc) == None <==> 10 * |a * b| < 3 * |a + b|)
              && (ByTrigrams(q).Score(doc) == Some(score) <==>
                    10 * |a * b| >= 3 * |a + b| && score * |a + b| as real == (|a + b| - |a * b|) as real)
  {
    hide TrigramSet, Contains;
    TrigramsAre(q, a);
    TrigramsAre(doc, b);
    if |q| >= 3 {
      QueryHasTrigram(q);
      JaccardThreshold(a, b);
      UnionSize(a, b);
      QuotientComplement(|a * b| as real, |a + b| as real, score);
    }
  }

  lemma QueryHasTrigram(q: string)
    requires |q| >= 3
    ensures TrigramSet(q) != {}
  {
    assert TrigramAt(q, 0) in TrigramSet(q);
  }

  /** Every Levenshtein hit is a Damerau-Levenshtein hit with a score no larger. */
  lemma DamerauFindsMore(q: string, doc: string)
    requires ByWords(Levenshtein, q).Score(doc).Some?
    ensures var lev, osa := ByWords(Levenshtein, q).Score(doc), ByWords(Osa, q).Score(doc);
            osa.Some? && osa.value <= lev.value <= 2.0 * osa.value
  {
    var words, max := Words(doc), MaxDistance(|q|);
    BestWordIsClosest(Levenshtein, q, words, max);
    BestWordIsClosest(Osa, q, words, max);
    var l := BestWord(Levenshtein, q, words, max).value;
    var i :| 0 <= i < |words| && Distance(Levenshtein, q, words[i]) == l;
    OsaVersusLevenshtein(q, words[i]);
    var o := BestWord(Osa, q, words, max).value;
    var j :| 0 <= j < |words| && Distance(Osa, q, words[j]) == o;
    OsaVersusLevenshtein(q, words[j]);
  }

  /** Over a whole table: no Levenshtein hit is lost by allowing swaps, and none gets a worse score. */
  lemma DamerauHitsCover(q: string, norm: map<int, string>, h: Hit)
    requires h in Hits(ByWords(Levenshtein, q), norm)
    ensures exists g :: g in Hits(ByWords(Osa, q), norm) && g.id == h.id && g.score <= h.score
  {
    DamerauFindsMore(q, norm[h.id]);
    var g := Hit(h.id, ByWords(Osa, q).Score(norm[h.id]).value);
    assert g in Hits(ByWords(Osa, q), norm);
  }

  /** A document equal to the query, or from three characters on one with the same trigrams, is a perfect match. */
  lemma PerfectTrigramScore(q: string, doc: string)
    requires q != ""
    ensures ByTrigrams(q).Score(doc) == Some(0.0) <==>
              if |q| < 3 then q == doc else TrigramSet(q) == TrigramSet(doc)
  {
    if |q| >= 3 {
      JaccardPerfect(TrigramSet(q), TrigramSet(doc));
      assert TrigramAt(q, 0) in TrigramSet(q);
    }
  }

  // ---------------------------------------------------------------------------
  // The scans
  // ---------------------------------------------------------------------------

  /** The hits of the rows scanned so far, in scan order. */
  ghost predicate Scanned(hits: seq<Hit>, scorer: Scorer, norm: map<int, string>, done: set<int>) {
    && Distinct(hits)
    && (forall h :: h in hits <==> h.id in done && h.id in norm && scorer.Score(norm[h.id]) == Some(h.score))
  }

  lemma ScannedAll(hits: seq<Hit>, scorer: Scorer, norm: map<int, string>, done: set<int>)
    requires Scanned(hits, scorer, norm, done)
    requires forall id :: id in norm && id !in done ==> scorer.Score(norm[id]).None?
    ensures Distinct(hits) && Elements(hits) == Hits(scorer, norm)
  {
    forall h ensures h in Elements(hits) <==> h in Hits(scorer, norm) {
      if h in Hits(scorer, norm) {
        var id :| id in norm && scorer.Score(norm[id]).Some? && Hit(id, scorer.Score(norm[id]).value) == h;
        assert h in hits;
      }
    }
  }

  lemma ScannedPush(hits: seq<Hit>, scorer: Scorer, norm: map<int, string>, done: set<int>, id: int)
    requires Scanned(hits, scorer, norm, done) && id in norm && id !in done
    ensures var score := scorer.Score(norm[id]);
            Scanned(if score.Some? then hits + [Hit(id, score.value)] else hits, scorer, norm, done + {id})
  {
    var score := scorer.Score(norm[id]);
    if score.Some? {
      assert Hit(id, score.value) !in hits;
    }
  }

  method ClosestWithin(k: Kernel, q: string, words: seq<string>, max: nat) returns (best: Option<nat>)
    ensures best == BestWord(k, q, words, max)
  {
    best := None;
    for i := 0 to |words|
      invariant best == BestWord(k, q, words[..i], max)
    {
      assert words[..i + 1] == words[..i] + [words[i]];
      var d: Option<nat>;
      if k == Levenshtein { d := LevenshteinWithin(q, words[i], max); } else { d := OsaWithin(q, words[i], max); }
      if d.Some? {
        best := Some(if best.None? then d.value else Min(best.value, d.value));
        if d.value == 0 {
          ZeroIsBest(k, q, words, max, i + 1);
          return;
        }
      }
    }
    assert words[..|words|] == words;
  }

  /** Once the best distance is 0 the remaining words cannot change it. */
  lemma {:induction false} ZeroIsBest(k: Kernel, q: string, words: seq<string>, max: nat, n: nat)
    requires n <= |words| && BestWord(k, q, words[..n], max) == Some(0)
    ensures BestWord(k, q, words, max) == Some(0)
    decreases |words| - n
  {
    if n < |words| {
      assert words[..n + 1] == words[..n] + [words[n]];
      assert words[..n + 1][..n] == words[..n];
      ZeroIsBest(k, q, words, max, n + 1);
    } else {
      assert words[..n] == words;
    }
  }

  /** Scans every document, ranks by distance and id, truncates. */
  method WordFuzzySearch(k: Kernel, norm: map<int, string>, q: string, limit: nat) returns (hits: seq<Hit>)
    ensures hits == Take(FullRanking(ByWords(k, q), norm), limit)
  {
    var threshold := MaxDistance(|q|);
    hits := [];
    var rest := norm.Keys;
    while rest != {}
      invariant rest <= norm.Keys
      invariant Scanned(hits, ByWords(k, q), norm, norm.Keys - rest)
      decreases rest
    {
      assert (forall x: int :: x !in rest) ==> rest == {};
      var id :| id in rest;
      ScannedPush(hits, ByWords(k, q), norm, norm.Keys - rest, id);
      assert norm.Keys - (rest - {id}) == norm.Keys - rest + {id};
      rest := rest - {id};
      var best := ClosestWithin(k, q, Words(norm[id]), threshold);
      if best.Some? { hits := hits + [Hit(id, best.value as real)]; }
    }
    ScannedAll(hits, ByWords(k, q), norm, norm.Keys);
    hits := RankAndTruncate(hits, limit);
  }

  /** The candidates of the FTS5 pre-filter. */
  function MatchIds(fold: char -> char, docs: map<int, string>, query: string): set<int> {
    set id | id in docs && Matches(fold, docs[id], query)
  }

  lemma SkippedHaveNoScore(fold: char -> char, docs: map<int, string>, q: string, query: string)
    requires |q| >= 3 && ParseOr(query).Some? && forall t :: t in ParseOr(query).value <==> t in TrigramSet(q)
    ensures forall id :: id in docs && id !in MatchIds(fold, docs, query) ==> ByTrigrams(q).Score(docs[id]).None?
  {
    forall id | id in docs && id !in MatchIds(fold, docs, query) ensures ByTrigrams(q).Score(docs[id]).None? {
      if ByTrigrams(q).Score(docs[id]).Some? { PreFilterIsComplete(fold, q, docs[id], query); }
    }
  }

  /** The comparison inside both loops of `FuzzyTrigramSearch`; `grams` are the query's trigrams. */
  method CompareTrigrams(q: string, grams: set<string>, doc: string) returns (sim: real)
    requires |q| >= 3 ==> grams == TrigramSet(q)
    ensures sim == Similarity(q, doc)
  {
    if |q| < 3 { return if q == doc then 1.0 else 0.0; }
    var docGrams := CollectTrigrams(doc);
    return Jaccard(grams, docGrams);
  }

  /** The rows to compare: all of them for a short query, those matching any trigram of a longer one. */
  method TrigramCandidates(fold: char -> char, docs: map<int, string>, norm: map<int, string>, q: string)
    returns (grams: set<string>, ids: set<int>)
    requires q != ""
    ensures |q| >= 3 ==> grams == TrigramSet(q)
    ensures var table := if |q| < 3 then norm else docs;
            ids <= table.Keys && forall id :: id in table && id !in ids ==> ByTrigrams(q).Score(table[id]).None?
  {
    if |q| < 3 { return {}, norm.Keys; }
    grams := CollectTrigrams(q);
    assert TrigramAt(q, 0) in grams;
    var query := BuildFts5Or(grams);
    SkippedHaveNoScore(fold, docs, q, query.value);
    ids := MatchIds(fold, docs, query.value);
  }

  /** Trigram search: whatever the pre-filter skips would not have been a hit. */
  method FuzzyTrigramSearch(fold: char -> char, docs: map<int, string>, norm: map<int, string>, q: string, limit: nat)
    returns (hits: seq<Hit>)
    ensures hits == Take(FullRanking(ByTrigrams(q), if |q| < 3 then norm else docs), limit)
  {
    hits := [];
    if q == "" {
      EmptyQueryHasNoHits(norm);
      return;
    }
    var scorer, table := ByTrigrams(q), if |q| < 3 then norm else docs;
    var grams, candidates := TrigramCandidates(fold, docs, norm, q);
    var rest := candidates;
    while rest != {}
      invariant rest <= candidates
      invariant Scanned(hits, scorer, table, candidates - rest)
      decreases rest
    {
      assert (forall x: int :: x !in rest) ==> rest == {};
      var id :| id in rest;
      ScannedPush(hits, scorer, table, candidates - rest, id);
      assert candidates - (rest - {id}) == candidates - rest + {id};
      rest := rest - {id};
      var sim := CompareTrigrams(q, grams, table[id]);
      if sim >= THRESHOLD { hits := hits + [Hit(id, 1.0 - sim)]; }
    }
    assert candidates - {} == candidates;
    ScannedAll(hits, scorer, table, candidates);
    hits := RankAndTruncate(hits, limit);
  }

  lemma EmptyQueryHasNoHits(norm: map<int, string>)
    ensures FullRanking(ByTrigrams(""), norm) == []
  {
    assert Hits(ByTrigrams(""), norm) == {};
  }
}
