/** The search strategies behind one interface. */
module Strategies {
  import opened Wrappers
  import opened Text
  import opened HitOrder
  import opened EditDistance
  import opened RangeScan
  import opened Like
  import opened Substring
  import opened Scoring
  import opened IndexState

  /** The strategies whose result this code determines (bm25 ranking is SQLite's own). */
  datatype Strategy =
    | SubstringStrategy
    | PrefixStrategy
    | SuffixStrategy
    | AllTermsStrategy
    | FuzzyTrigramStrategy
    | LevenshteinStrategy
    | DamerauLevenshteinStrategy
  {
    /** Ranked by (score, id), as opposed to storage order. */
    predicate IsRanked() {
      FuzzyTrigramStrategy? || LevenshteinStrategy? || DamerauLevenshteinStrategy?
    }

    function ScorerFor(q: string): Scorer
      requires IsRanked()
    {
      match this
      case FuzzyTrigramStrategy => ByTrigrams(q)
      case LevenshteinStrategy => ByWords(Levenshtein, q)
      case DamerauLevenshteinStrategy => ByWords(Osa, q)
    }
  }

  /** The documents an unranked strategy is meant to find. */
  ghost function MatchingIds(st: Strategy, fold: char -> char, norm: map<int, string>, q: string): set<int>
    requires !st.IsRanked()
  {
    match st
    case SubstringStrategy => ContainingIds(FoldingFor(fold, q), norm, q)
    case PrefixStrategy => PrefixIds(norm, q)
    case SuffixStrategy => SuffixIds(norm, q)
    case AllTermsStrategy => if Words(q) == [] then {} else AllTermsIds(norm, q)
  }

  /** The range scans are exact unless a query character without a successor is dropped from their bound. */
  predicate IsExact(st: Strategy, q: string) {
    (st.PrefixStrategy? ==> ExactRange(q)) && (st.SuffixStrategy? ==> ExactRange(Reverse(q)))
  }

  function ReversedColumn(norm: map<int, string>): map<int, string> {
    map id | id in norm :: Reverse(norm[id])
  }

  /** The documents an unranked strategy selects from: for prefix and suffix whatever lies in the range. */
  ghost function SelectedIds(st: Strategy, fold: char -> char, norm: map<int, string>, q: string): set<int>
    requires !st.IsRanked()
  {
    match st
    case PrefixStrategy => RangeIds(norm, q, UpperBound(q))
    case SuffixStrategy => RangeIds(ReversedColumn(norm), Reverse(q), UpperBound(Reverse(q)))
    case _ => MatchingIds(st, fold, norm, q)
  }

  lemma ReversedMirrors(normRev: map<int, string>, norm: map<int, string>)
    ensures Mirrors(ReversedColumn(norm), norm)
    ensures Mirrors(normRev, norm) ==> normRev == ReversedColumn(norm)
  {
    if Mirrors(normRev, norm) {
      var rev := ReversedColumn(norm);
      assert forall id :: id in norm <==> id in normRev.Keys;
      forall id | id in normRev ensures normRev[id] == rev[id] {
      }
      SameMap(normRev, rev);
    }
  }

  /** Nothing that matches is missed, and in exact ranges nothing else is selected. */
  lemma SelectedMeaning(st: Strategy, fold: char -> char, norm: map<int, string>, q: string)
    requires !st.IsRanked()
    ensures MatchingIds(st, fold, norm, q) <= SelectedIds(st, fold, norm, q)
    ensures IsExact(st, q) ==> SelectedIds(st, fold, norm, q) == MatchingIds(st, fold, norm, q)
  {
    var rev := ReversedColumn(norm);
    ReversedMirrors(rev, norm);
    match st
    case PrefixStrategy => PrefixRange(norm, q);
    case SuffixStrategy =>
      SuffixRange(rev, norm, q);
      PrefixRange(rev, Reverse(q));
    case _ =>
  }

  /** The answer to a query: the best hits in order, or enough selected documents in storage order. */
  ghost predicate Answers(hits: seq<Hit>, st: Strategy, fold: char -> char, norm: map<int, string>, q: string,
                          limit: nat, offset: nat)
  {
    if st.IsRanked() then hits == Slice(FullRanking(st.ScorerFor(q), norm), offset, limit)
    else Selects(hits, SelectedIds(st, fold, norm, q), offset, limit)
  }

  /** The columns a search reads. */
  datatype Tables = Tables(docs: map<int, string>, norm: map<int, string>, normRev: map<int, string>)

  /** The full-text table repeats the `norm` column and the reversed column mirrors it. */
  ghost predicate InSync(tables: Tables) {
    tables.docs == tables.norm && Mirrors(tables.normRev, tables.norm)
  }

  /** The engine's tables, when they agree, are in sync. */
  lemma AgreeInSync(s: Store)
    requires Agree(s)
    ensures InSync(Tables(s.docs, Norms(s), NormRevs(s)))
  {
    forall id | id in s.docs ensures s.docs[id] == Norms(s)[id] {
    }
    SameMap(s.docs, Norms(s));
  }

  lemma TakeIsSlice<T>(s: seq<T>, limit: nat)
    ensures Take(s, limit) == Slice(s, 0, limit)
  {
    assert s[0..] == s;
  }

  /** A ranked search without an offset. */
  method RankedSearch(st: Strategy, fold: char -> char, tables: Tables, q: string, limit: nat) returns (hits: seq<Hit>)
    requires st.IsRanked() && InSync(tables)
    ensures hits == Take(FullRanking(st.ScorerFor(q), tables.norm), limit)
  {
    match st {
      case FuzzyTrigramStrategy => hits := FuzzyTrigramSearch(fold, tables.docs, tables.norm, q, limit);
      case LevenshteinStrategy => hits := WordFuzzySearch(Levenshtein, tables.norm, q, limit);
      case DamerauLevenshteinStrategy => hits := WordFuzzySearch(Osa, tables.norm, q, limit);
    }
  }

  /** An unranked search: one statement with `LIMIT` and `OFFSET`. */
  method UnrankedSearch(st: Strategy, fold: char -> char, tables: Tables, q: string, limit: nat, offset: nat)
    returns (hits: seq<Hit>)
    requires !st.IsRanked() && InSync(tables)
    ensures Answers(hits, st, fold, tables.norm, q, limit, offset)
  {
    ReversedMirrors(tables.normRev, tables.norm);
    match st {
      case SubstringStrategy => hits := SubstringSearch(fold, tables.docs, tables.norm, q, limit, offset);
      case PrefixStrategy => hits := PrefixSearch(tables.norm, q, limit, offset);
      case SuffixStrategy => hits := SuffixSearch(tables.normRev, tables.norm, q, limit, offset);
      case AllTermsStrategy => hits := AllTermsSearch(tables.norm, q, limit, offset);
    }
  }

  method Search(st: Strategy, fold: char -> char, tables: Tables, q: string, limit: nat) returns (hits: seq<Hit>)
    requires InSync(tables)
    ensures Answers(hits, st, fold, tables.norm, q, limit, 0)
  {
    if st.IsRanked() {
      hits := RankedSearch(st, fold, tables, q, limit);
      TakeIsSlice(FullRanking(st.ScorerFor(q), tables.norm), limit);
    } else {
      hits := UnrankedSearch(st, fold, tables, q, limit, 0);
    }
  }

  /** A page: the ranked strategies fetch `limit + offset` hits and drop the first `offset`. */
  method SearchPaged(st: Strategy, fold: char -> char, tables: Tables, q: string, limit: u32, offset: u32)
    returns (r: Option<seq<Hit>>)
    requires InSync(tables)
    ensures r.None? <==> st.IsRanked() && limit != 0 && limit + offset > U32_MAX
    ensures r.Some? ==> Answers(r.value, st, fold, tables.norm, q, limit, offset)
  {
    if !st.IsRanked() {
      var page := UnrankedSearch(st, fold, tables, q, limit, offset);
      return Some(page);
    }
    if limit == 0 { return Some([]); }
    if limit + offset > U32_MAX { return None; }
    var hits := RankedSearch(st, fold, tables, q, limit + offset);
    ghost var full := FullRanking(st.ScorerFor(q), tables.norm);
    PageOfTake(full, offset, limit);
    var drainTo := if offset < |hits| then offset else |hits|;
    return Some(hits[drainTo..]);
  }

  /** The ranked strategies count by searching without a practical limit. */
  method MatchCount(st: Strategy, fold: char -> char, tables: Tables, q: string) returns (n: nat)
    requires InSync(tables)
    ensures st.IsRanked() ==> n == Min(|Hits(st.ScorerFor(q), tables.norm)|, U32_MAX)
    ensures !st.IsRanked() ==> n == |SelectedIds(st, fold, tables.norm, q)|
  {
    ReversedMirrors(tables.normRev, tables.norm);
    match st {
      case SubstringStrategy => n := SubstringCount(fold, tables.docs, tables.norm, q);
      case PrefixStrategy => n := PrefixCount(tables.norm, q);
      case SuffixStrategy => n := SuffixCount(tables.normRev, tables.norm, q);
      case AllTermsStrategy => n := AllTermsCount(tables.norm, q);
      case _ =>
        var hits := RankedSearch(st, fold, tables, q, U32_MAX);
        n := |hits|;
    }
  }
}
