/** What the searches answer, said of the documents themselves. */
module SearchMeanings {
  import opened Wrappers
  import opened Text
  import opened EditDistance
  import opened Packing
  import opened HitOrder
  import opened RangeScan
  import opened Like
  import opened Trigrams
  import opened Scoring
  import opened Strategies
  import opened RecordSearch
  import opened RankedRecords
  import opened Engine

  // ---------------------------------------------------------------------------
  // Ranked answers
  // ---------------------------------------------------------------------------

  /** The hits with a smaller score than `h`, or the same score and a smaller id. */
  ghost function Better(all: set<Hit>, h: Hit): set<Hit> {
    set g | g in all && (g.score < h.score || (g.score == h.score && g.id < h.id))
  }

  /** The `limit` best of `all` after the first `offset`: each hit has as many better ones as its position says. */
  ghost predicate BestOf(hits: seq<Hit>, all: set<Hit>, limit: nat, offset: nat) {
    && |hits| == (if |all| <= offset then 0 else if |all| - offset < limit then |all| - offset else limit)
    && forall k :: 0 <= k < |hits| ==> hits[k] in all && |Better(all, hits[k])| == offset + k
  }

  lemma EarlierIsBefore(r: seq<Hit>, n: nat, g: Hit)
    requires StrictlySorted(r) && n < |r|
    ensures g in Take(r, n) <==> g in r && Before(g, r[n])
  {
    if g in Take(r, n) {
      var j :| 0 <= j < n && Take(r, n)[j] == g;
      assert r[j] in r;
    }
    if g in r && Before(g, r[n]) {
      var j :| 0 <= j < |r| && r[j] == g;
      assert j < n;
      assert Take(r, n)[j] == g;
    }
  }

  lemma BetterOnes(all: set<Hit>, n: nat)
    requires n < |Ranking(all)|
    ensures Ranking(all)[n] in all && |Better(all, Ranking(all)[n])| == n
  {
    var r := Ranking(all);
    var first := Elements(Take(r, n));
    TakeIsInitialSegment(all, n);
    assert |first| == |Ranking(first)| == n;
    assert r[n] in r;
    hide Ranking, StrictlySorted, Take;
    forall g ensures g in first <==> g in Better(all, r[n]) {
      EarlierIsBefore(r, n, g);
    }
    assert first == Better(all, r[n]);
  }

  lemma SliceMeaning<T>(s: seq<T>, offset: nat, limit: nat)
    ensures var page := Slice(s, offset, limit);
            && |page| == (if |s| <= offset then 0 else if |s| - offset < limit then |s| - offset else limit)
            && forall k :: 0 <= k < |page| ==> page[k] == s[offset + k]
  {
  }

  lemma PlaceInPage(all: set<Hit>, limit: nat, offset: nat, k: nat)
    requires k < |Slice(Ranking(all), offset, limit)|
    ensures var h := Slice(Ranking(all), offset, limit)[k]; h in all && |Better(all, h)| == offset + k
  {
    SliceMeaning(Ranking(all), offset, limit);
    hide Ranking, Better, Slice;
    BetterOnes(all, offset + k);
  }

  lemma RankingIsBest(all: set<Hit>, limit: nat, offset: nat)
    ensures BestOf(Slice(Ranking(all), offset, limit), all, limit, offset)
  {
    var page := Slice(Ranking(all), offset, limit);
    SliceMeaning(Ranking(all), offset, limit);
    assert |Ranking(all)| == |all|;
    hide Ranking, Better, Slice;
    forall k | 0 <= k < |page| ensures page[k] in all && |Better(all, page[k])| == offset + k {
      PlaceInPage(all, limit, offset, k);
    }
  }

  /** `score` is the distance to the closest word, one edit at most, or one per four characters of the query. */
  ghost predicate IsClosest(k: Kernel, q: string, doc: string, score: real) {
    && (score <= 1.0 || 4.0 * score <= |q| as real)
    && (exists w :: w in Words(doc) && Distance(k, q, w) as real == score)
    && (forall w :: w in Words(doc) ==> score <= Distance(k, q, w) as real)
  }

  /** `score` is the share of trigrams not in common, at most seven tenths; below three characters equality counts. */
  ghost predicate IsSimilar(q: string, doc: string, score: real) {
    if |q| < 3 then q != "" && q == doc && score == 0.0
    else
      var common, both := TrigramSet(q) * TrigramSet(doc), TrigramSet(q) + TrigramSet(doc);
      10 * |common| >= 3 * |both| && score * |both| as real == (|both| - |common|) as real
  }

  /** The document is a hit of the ranked strategy, with this score. */
  ghost predicate IsHit(st: Strategy, norm: map<int, string>, q: string, h: Hit) {
    h.id in norm &&
    match st
    case LevenshteinStrategy => IsClosest(Levenshtein, q, norm[h.id], h.score)
    case DamerauLevenshteinStrategy => IsClosest(Osa, q, norm[h.id], h.score)
    case FuzzyTrigramStrategy => IsSimilar(q, norm[h.id], h.score)
    case _ => false
  }

  lemma ClosestIsScore(k: Kernel, q: string, doc: string, score: real)
    ensures IsClosest(k, q, doc, score) <==> ByWords(k, q).Score(doc) == Some(score)
  {
    hide Distance;
    if IsClosest(k, q, doc, score) {
      var w :| w in Words(doc) && Distance(k, q, w) as real == score;
      WordScoreMeaning(k, q, doc, Distance(k, q, w));
    }
    if ByWords(k, q).Score(doc) == Some(score) {
      var d := BestWord(k, q, Words(doc), MaxDistance(|q|)).value;
      WordScoreMeaning(k, q, doc, d);
    }
  }

  lemma TrigramsOf(s: string)
    ensures forall w :: w in TrigramSet(s) <==> |w| == 3 && Contains(s, w)
  {
    forall w ensures w in TrigramSet(s) <==> |w| == 3 && Contains(s, w) {
      if |w| == 3 { TrigramOccurs(s, w); }
    }
  }

  lemma SimilarIsScore(q: string, doc: string, score: real)
    ensures IsSimilar(q, doc, score) <==> ByTrigrams(q).Score(doc) == Some(score)
  {
    TrigramsOf(q);
    TrigramsOf(doc);
    hide TrigramSet, Contains, Similarity;
    TrigramScoreMeaning(q, doc, TrigramSet(q), TrigramSet(doc), score);
  }

  lemma HitsAre(st: Strategy, norm: map<int, string>, q: string, h: Hit)
    requires st.LevenshteinStrategy? || st.DamerauLevenshteinStrategy? || st.FuzzyTrigramStrategy?
    ensures st.IsRanked() && (h in Hits(st.ScorerFor(q), norm) <==> IsHit(st, norm, q, h))
  {
    hide IsClosest, IsSimilar;
    if h.id in norm {
      ClosestIsScore(Levenshtein, q, norm[h.id], h.score);
      ClosestIsScore(Osa, q, norm[h.id], h.score);
      SimilarIsScore(q, norm[h.id], h.score);
      ScoredIsHit(st.ScorerFor(q), norm, h);
    }
  }

  lemma ScoredIsHit(scorer: Scorer, norm: map<int, string>, h: Hit)
    ensures h in Hits(scorer, norm) <==> h.id in norm && scorer.Score(norm[h.id]) == Some(h.score)
  {
    if h.id in norm && scorer.Score(norm[h.id]) == Some(h.score) {
      assert Hit(h.id, scorer.Score(norm[h.id]).value) == h;
    }
  }

  /** Edit distances and trigram similarity answer with their best hits, page by page, each hit in its place. */
  lemma RankedAnswerMeaning(hits: seq<Hit>, st: Strategy, fold: char -> char, norm: map<int, string>, q: string,
                            limit: nat, offset: nat, all: set<Hit>)
    requires st.LevenshteinStrategy? || st.DamerauLevenshteinStrategy? || st.FuzzyTrigramStrategy?
    requires forall h :: h in all <==> IsHit(st, norm, q, h)
    requires Answers(hits, st, fold, norm, q, limit, offset)
    ensures BestOf(hits, all, limit, offset)
  {
    hide IsHit, BestOf, Hits;
    forall h ensures h in all <==> h in Hits(st.ScorerFor(q), norm) { HitsAre(st, norm, q, h); }
    assert all == Hits(st.ScorerFor(q), norm);
    HitsAre(st, norm, q, Hit(0, 0.0));
    RankingIsBest(all, limit, offset);
  }

  // ---------------------------------------------------------------------------
  // Unranked answers
  // ---------------------------------------------------------------------------

  function AsciiLower(c: char): int {
    if 0x41 <= c as int <= 0x5A then c as int + 0x20 else c as int
  }

  /** `part` stands somewhere in `doc`, with ASCII letters in either case. */
  ghost predicate HoldsAnyCase(doc: string, part: string) {
    exists i: nat :: HeldAt(doc, part, i)
  }

  predicate HeldAt(doc: string, part: string, i: nat) {
    i + |part| <= |doc| && forall k :: 0 <= k < |part| ==> AsciiLower(doc[i + k]) == AsciiLower(part[k])
  }

  predicate FoldedAt(fold: char -> char, doc: string, part: string, i: nat) {
    i + |part| <= |doc| && forall k :: 0 <= k < |part| ==> fold(doc[i + k]) == fold(part[k])
  }

  /** What the unranked strategies look for in a document. */
  ghost predicate IsMatch(st: Strategy, fold: char -> char, doc: string, q: string) {
    match st
    case SubstringStrategy =>
      if |q| < 3 then HoldsAnyCase(doc, q) else exists i: nat :: FoldedAt(fold, doc, q, i)
    case PrefixStrategy => |q| <= |doc| && forall k :: 0 <= k < |q| ==> doc[k] == q[k]
    case SuffixStrategy => |q| <= |doc| && forall k :: 0 <= k < |q| ==> doc[|doc| - |q| + k] == q[k]
    case AllTermsStrategy => Words(q) != [] && forall w :: w in Words(q) ==> HoldsAnyCase(doc, w)
    case _ => false
  }

  lemma FoldedOccurs(f: char -> char, doc: string, part: string, i: nat)
    ensures FoldedAt(f, doc, part, i) <==> OccursAt(FoldCase(f, doc), FoldCase(f, part), i)
  {
    if i + |part| <= |doc| { SameAt(FoldCase(f, doc), FoldCase(f, part), i); }
  }

  lemma HeldIsFolded(doc: string, part: string, i: nat)
    ensures HeldAt(doc, part, i) <==> FoldedAt(AsciiFold, doc, part, i)
  {
    AsciiLowerIsFold();
  }

  lemma AsciiLowerIsFold()
    ensures forall c :: AsciiLower(c) == AsciiFold(c) as int
  {
  }

  lemma HoldsIsContains(doc: string, part: string)
    ensures HoldsAnyCase(doc, part) <==> Contains(FoldCase(AsciiFold, doc), FoldCase(AsciiFold, part))
  {
    forall i: nat ensures HeldAt(doc, part, i) <==> OccursAt(FoldCase(AsciiFold, doc), FoldCase(AsciiFold, part), i) {
      HeldIsFolded(doc, part, i);
      FoldedOccurs(AsciiFold, doc, part, i);
    }
  }

  lemma EndsMeaning(doc: string, q: string)
    ensures HasPrefix(doc, q) <==> |q| <= |doc| && forall k :: 0 <= k < |q| ==> doc[k] == q[k]
    ensures HasSuffix(doc, q) <==> |q| <= |doc| && forall k :: 0 <= k < |q| ==> doc[|doc| - |q| + k] == q[k]
  {
    if |q| <= |doc| {
      var head, tail := doc[..|q|], doc[|doc| - |q|..];
      assert forall k :: 0 <= k < |q| ==> head[k] == doc[k] && tail[k] == doc[|doc| - |q| + k];
      if head == q { assert forall k :: 0 <= k < |q| ==> head[k] == q[k]; }
      if tail == q { assert forall k :: 0 <= k < |q| ==> tail[k] == q[k]; }
    }
  }

  lemma MatchesAre(st: Strategy, fold: char -> char, norm: map<int, string>, q: string, id: int)
    requires st.SubstringStrategy? || st.PrefixStrategy? || st.SuffixStrategy? || st.AllTermsStrategy?
    ensures !st.IsRanked()
    ensures id in MatchingIds(st, fold, norm, q) <==> id in norm && IsMatch(st, fold, norm[id], q)
  {
    if id in norm {
      var doc := norm[id];
      match st
      case SubstringStrategy =>
        HoldsIsContains(doc, q);
        forall i: nat ensures FoldedAt(fold, doc, q, i) <==> OccursAt(FoldCase(fold, doc), FoldCase(fold, q), i) {
          FoldedOccurs(fold, doc, q, i);
        }
      case AllTermsStrategy =>
        forall w ensures HoldsAnyCase(doc, w) <==> ContainsFolded(doc, w) { HoldsIsContains(doc, w); }
      case _ => EndsMeaning(doc, q);
    }
  }

  /**
   * An unranked answer lists as many different matches as fit behind the offset, all with score 0. A prefix or suffix
   * query whose end has no successor may select more; even then an answer that is not full has every match.
   */
  lemma UnrankedAnswerMeaning(hits: seq<Hit>, st: Strategy, fold: char -> char, norm: map<int, string>, q: string,
                              limit: nat, offset: nat, all: set<int>)
    requires st.SubstringStrategy? || st.PrefixStrategy? || st.SuffixStrategy? || st.AllTermsStrategy?
    requires forall id :: id in all <==> id in norm && IsMatch(st, fold, norm[id], q)
    requires Answers(hits, st, fold, norm, q, limit, offset)
    ensures forall i, j :: 0 <= i < j < |hits| ==> hits[i].id != hits[j].id
    ensures forall i :: 0 <= i < |hits| ==> hits[i].id in norm && hits[i].score == 0.0
    ensures |hits| <= limit
    ensures IsExact(st, q) ==>
              && |hits| == (if |all| <= offset then 0 else if |all| - offset < limit then |all| - offset else limit)
              && forall i :: 0 <= i < |hits| ==> hits[i].id in all
    ensures offset == 0 && |hits| < limit ==> forall id :: id in all ==> exists i :: 0 <= i < |hits| && hits[i].id == id
  {
    hide IsMatch;
    forall id ensures id in all <==> id in MatchingIds(st, fold, norm, q) { MatchesAre(st, fold, norm, q, id); }
    assert all == MatchingIds(st, fold, norm, q);
    MatchesAre(st, fold, norm, q, 0);
    SelectedMeaning(st, fold, norm, q);
    SelectedExist(st, fold, norm, q);
    var ids := SelectedIds(st, fold, norm, q);
    hide MatchingIds, SelectedIds, IsExact;
    if offset == 0 && |hits| < limit {
      SelectsAll(hits, ids, limit);
      forall id | id in all ensures exists i :: 0 <= i < |hits| && hits[i].id == id {
        assert id in (set h | h in hits :: h.id);
        var h :| h in hits && h.id == id;
      }
    }
  }

  lemma SelectedExist(st: Strategy, fold: char -> char, norm: map<int, string>, q: string)
    requires !st.IsRanked()
    ensures SelectedIds(st, fold, norm, q) <= norm.Keys
  {
  }

  ghost predicate PrecededBySuccessor(q: string, k: int) {
    exists j :: 0 <= j < |q| && j < k && q[j] as int != 0xD7FF && q[j] as int != 0x10FFFF
  }

  /** A prefix query is exact if each U+D7FF is followed by a character with a successor, a suffix query if preceded. */
  lemma ExactMeaning(st: Strategy, q: string)
    ensures st.PrefixStrategy? ==>
              (IsExact(st, q) <==> forall k :: 0 <= k < |q| && q[k] as int == 0xD7FF ==> FollowedBySuccessor(q, k))
    ensures st.SuffixStrategy? ==>
              (IsExact(st, q) <==> forall k :: 0 <= k < |q| && q[k] as int == 0xD7FF ==> PrecededBySuccessor(q, k))
    ensures !st.PrefixStrategy? && !st.SuffixStrategy? ==> IsExact(st, q)
  {
    ExactRangeMeaning(q);
    MirroredExact(q);
  }

  lemma MirroredSuccessor(q: string, k: int)
    ensures FollowedBySuccessor(Reverse(q), |q| - 1 - k) <==> PrecededBySuccessor(q, k)
  {
    var r, n := Reverse(q), |q| - 1;
    if FollowedBySuccessor(r, n - k) {
      var j :| 0 <= j < |r| && n - k < j && r[j] as int != 0xD7FF && r[j] as int != 0x10FFFF;
      assert q[n - j] == r[j];
    }
    if PrecededBySuccessor(q, k) {
      var j :| 0 <= j < |q| && j < k && q[j] as int != 0xD7FF && q[j] as int != 0x10FFFF;
      assert r[n - j] == q[j];
    }
  }

  lemma MirroredExact(q: string)
    ensures ExactRange(Reverse(q)) <==>
            forall k :: 0 <= k < |q| && q[k] as int == 0xD7FF ==> PrecededBySuccessor(q, k)
  {
    hide ExactRange, FollowedBySuccessor, PrecededBySuccessor;
    var r, n := Reverse(q), |q| - 1;
    ExactRangeMeaning(r);
    forall k | 0 <= k < |q|
      ensures r[n - k] == q[k] && (FollowedBySuccessor(r, n - k) <==> PrecededBySuccessor(q, k))
    {
      MirroredSuccessor(q, k);
    }
    forall k | 0 <= k < |r|
      ensures r[k] == q[n - k] && (FollowedBySuccessor(r, k) <==> PrecededBySuccessor(q, n - k))
    {
      MirroredSuccessor(q, n - k);
    }
  }

  // ---------------------------------------------------------------------------
  // Pages
  // ---------------------------------------------------------------------------

  /** A page starts at `page * perPage`; it overflows past 32 bits, for the ranked strategies with its last hit. */
  lemma PageBounds(st: Strategy, page: u32, perPage: u32)
    ensures Offset(page, perPage) == page * perPage
    ensures PageOverflows(st, page, perPage) <==>
              || page * perPage > 4294967295
              || ((st.LevenshteinStrategy? || st.DamerauLevenshteinStrategy? || st.FuzzyTrigramStrategy?)
                  && perPage != 0 && page * perPage + perPage > 4294967295)
  {
    ProductIsTimes(page, perPage);
  }

  function Concat(pages: seq<seq<Hit>>): seq<Hit> {
    if pages == [] then [] else Concat(pages[..|pages| - 1]) + pages[|pages| - 1]
  }

  /** Answers for pages 0, 1, ... of a ranked search, put together, are its best hits: nothing twice, nothing lost. */
  lemma {:induction false} PagesOfSearchTile(pages: seq<seq<Hit>>, st: Strategy, fold: char -> char,
                                             norm: map<int, string>, q: string, perPage: u32)
    requires st.IsRanked() && |pages| <= U32_MAX
    requires forall i :: 0 <= i < |pages| ==> Answers(pages[i], st, fold, norm, q, perPage, Offset(i, perPage))
    ensures Concat(pages) == Take(FullRanking(st.ScorerFor(q), norm), |pages| * perPage)
  {
    hide FullRanking;
    PagesTile(FullRanking(st.ScorerFor(q), norm), perPage, |pages|);
    PagesOfSearch(pages, st, fold, norm, q, perPage);
  }

  lemma {:induction false} PagesOfSearch(pages: seq<seq<Hit>>, st: Strategy, fold: char -> char,
                                         norm: map<int, string>, q: string, perPage: u32)
    requires st.IsRanked() && |pages| <= U32_MAX
    requires forall i :: 0 <= i < |pages| ==> Answers(pages[i], st, fold, norm, q, perPage, Offset(i, perPage))
    ensures Concat(pages) == Pages(FullRanking(st.ScorerFor(q), norm), perPage, |pages|)
  {
    hide FullRanking, Offset;
    if pages != [] {
      var n := |pages| - 1;
      PagesOfSearch(pages[..n], st, fold, norm, q, perPage);
      PageBounds(st, n, perPage);
    }
  }

  // ---------------------------------------------------------------------------
  // Records
  // ---------------------------------------------------------------------------

  /** A record search fetches `limit` times the fields told of, read as one if none, within 32 bits. */
  lemma RawLimitMeaning(limit: u32, fieldsPerRecord: u32)
    ensures var n := limit * (if fieldsPerRecord == 0 then 1 else fieldsPerRecord);
            RawLimit(limit, fieldsPerRecord) == if n <= 4294967295 then n else 4294967295
  {
    ProductIsTimes(limit, AtLeastOne(fieldsPerRecord));
  }

  /**
   * If no record stores more fields than told, and the over-fetch stays within 32 bits or the hits do, a ranked record
   * search answers with the front of the complete ranking of records.
   */
  lemma RecordsFoundInFull(view: RecordView, out: seq<RecordHit>, q: string, limit: u32, fieldsPerRecord: u32)
    requires view.st.IsRanked() && q != "" && view.Finds(out, q, limit, fieldsPerRecord)
    requires var fields := if fieldsPerRecord == 0 then 1 else fieldsPerRecord;
             && (limit * fields <= 4294967295 || |Hits(view.st.ScorerFor(q), view.norm)| <= 4294967295)
             && FewFields(view.norm.Keys, view.bits, fields)
    ensures AsHits(out) == Take(AllRecords(view.st.ScorerFor(q), view.norm, view.bits), limit)
  {
    hide Hits, AllRecords;
    var fields := if fieldsPerRecord == 0 then 1 else fieldsPerRecord;
    ProductIsTimes(limit, fields);
    RankedRecordsFound(view, out, q, limit, fieldsPerRecord);
  }

  /** Some hit of the record has this score and none a smaller one. */
  ghost predicate IsBestOfRecord(all: set<Hit>, bits: nat, c: Hit) {
    && (exists h :: h in all && RecordOf(bits, h.id) == c.id && h.score == c.score)
    && (forall h :: h in all && RecordOf(bits, h.id) == c.id ==> c.score <= h.score)
  }

  lemma CollapseMeaning(all: set<Hit>, bits: nat, c: Hit)
    ensures c in Collapse(all, bits) <==> IsBestOfRecord(all, bits, c)
  {
    if c in Collapse(all, bits) {
      var h :| h in all && BestOfRecord(h, all, bits) && Hit(RecordOf(bits, h.id), h.score) == c;
    }
    if IsBestOfRecord(all, bits, c) {
      var h :| h in all && RecordOf(bits, h.id) == c.id && h.score == c.score;
      assert BestOfRecord(h, all, bits) && Hit(RecordOf(bits, h.id), h.score) == c;
    }
  }

  /** That ranking: every record with a hit once, with its best score, in order of score and record id. */
  lemma AllRecordsMeaning(st: Strategy, norm: map<int, string>, bits: nat, q: string, limit: nat,
                          all: set<Hit>, records: set<Hit>)
    requires st.LevenshteinStrategy? || st.DamerauLevenshteinStrategy? || st.FuzzyTrigramStrategy?
    requires forall h :: h in all <==> IsHit(st, norm, q, h)
    requires forall c :: c in records <==> IsBestOfRecord(all, bits, c)
    ensures st.IsRanked() && BestOf(Take(AllRecords(st.ScorerFor(q), norm, bits), limit), records, limit, 0)
  {
    hide IsHit, BestOf, Hits, IsBestOfRecord, Collapse;
    HitsAre(st, norm, q, Hit(0, 0.0));
    forall h ensures h in all <==> h in Hits(st.ScorerFor(q), norm) { HitsAre(st, norm, q, h); }
    assert all == Hits(st.ScorerFor(q), norm);
    forall c ensures c in records <==> c in Collapse(all, bits) { CollapseMeaning(all, bits, c); }
    assert records == Collapse(all, bits);
    RankingIsBest(records, limit, 0);
    TakeIsSlice(Ranking(records), limit);
  }

  /** The positions of a record's hits. */
  function PositionsOfRecord(hits: seq<Hit>, bits: nat, record: int): set<int> {
    set i | 0 <= i < |hits| && RecordOf(bits, hits[i].id) == record
  }

  /** Some hit of the record has this score and this slot, narrowed to eight bits. */
  ghost predicate HasFieldHit(hits: seq<Hit>, bits: nat, record: int, slot: int, score: real) {
    exists h :: h in hits && RecordOf(bits, h.id) == record && LowBits(bits, h.id) % 256 == slot && h.score == score
  }

  lemma HasFieldHitSnoc(front: seq<Hit>, last: Hit, bits: nat, record: int, slot: int, score: real)
    ensures HasFieldHit(front + [last], bits, record, slot, score) <==>
              || HasFieldHit(front, bits, record, slot, score)
              || (RecordOf(bits, last.id) == record && LowBits(bits, last.id) % 256 == slot && last.score == score)
  {
    var hits := front + [last];
    assert forall h :: h in hits <==> h in front || h == last;
    if HasFieldHit(front, bits, record, slot, score) {
      var h :| h in front && RecordOf(bits, h.id) == record && LowBits(bits, h.id) % 256 == slot && h.score == score;
      assert h in hits;
    }
  }

  lemma {:induction false} FieldHitsMeaning(hits: seq<Hit>, bits: nat, record: int)
    ensures forall slot, score ::
              Hit(slot, score) in FieldHits(hits, bits, record) <==> HasFieldHit(hits, bits, record, slot, score)
  {
    hide HasFieldHit;
    if hits == [] {
      forall slot, score ensures !HasFieldHit(hits, bits, record, slot, score) {
        NoFieldHit(bits, record, slot, score);
      }
    } else {
      var front, last := hits[..|hits| - 1], hits[|hits| - 1];
      FieldHitsMeaning(front, bits, record);
      assert hits == front + [last];
      forall slot, score
        ensures Hit(slot, score) in FieldHits(hits, bits, record) <==> HasFieldHit(hits, bits, record, slot, score)
      {
        HasFieldHitSnoc(front, last, bits, record, slot, score);
      }
    }
  }

  lemma NoFieldHit(bits: nat, record: int, slot: int, score: real)
    ensures !HasFieldHit([], bits, record, slot, score)
  {
  }

  lemma {:induction false} FieldHitsCount(hits: seq<Hit>, bits: nat, record: int)
    ensures |FieldHits(hits, bits, record)| == |PositionsOfRecord(hits, bits, record)|
  {
    hide RecordOf, SlotOf;
    if hits != [] {
      var front, n := hits[..|hits| - 1], |hits| - 1;
      FieldHitsCount(front, bits, record);
      var before := PositionsOfRecord(front, bits, record);
      assert forall i :: 0 <= i < n ==> front[i] == hits[i];
      assert PositionsOfRecord(hits, bits, record) ==
             if RecordOf(bits, hits[n].id) == record then before + {n} else before;
    }
  }

  lemma SameMembers(sorted: seq<Hit>, fields: seq<Hit>)
    requires multiset(sorted) == multiset(fields)
    ensures |sorted| == |fields| && forall x :: x in sorted <==> x in fields
  {
    assert |sorted| == |multiset(sorted)| && |fields| == |multiset(fields)|;
    forall x ensures x in sorted <==> x in fields {
      assert x in sorted <==> x in multiset(sorted);
      assert x in fields <==> x in multiset(fields);
    }
  }

  lemma PlaceInSorted(sorted: seq<Hit>, slot: int, score: real)
    requires Hit(slot, score) in sorted
    ensures exists i :: 0 <= i < |sorted| && sorted[i].id == slot && sorted[i].score == score
  {
    var i :| 0 <= i < |sorted| && sorted[i] == Hit(slot, score);
  }

  lemma OrderOfSorted(sorted: seq<Hit>)
    requires Sorted(sorted)
    ensures forall i, j :: 0 <= i < j < |sorted| ==>
              sorted[i].score < sorted[j].score || (sorted[i].score == sorted[j].score && sorted[i].id <= sorted[j].id)
  {
  }

  /** `sorted` lists the hits of a record as (slot, score), the best first and then by slot. */
  lemma SortedFieldsMeaning(hits: seq<Hit>, bits: nat, record: int) returns (sorted: seq<Hit>)
    ensures MatchedSlots(hits, bits, record) == Ids(sorted) && Sorted(sorted)
    ensures |sorted| == |PositionsOfRecord(hits, bits, record)|
    ensures forall slot, score :: Hit(slot, score) in sorted <==> HasFieldHit(hits, bits, record, slot, score)
  {
    var fields := FieldHits(hits, bits, record);
    sorted := SortHits(fields);
    FieldHitsMeaning(hits, bits, record);
    FieldHitsCount(hits, bits, record);
    SameMembers(sorted, fields);
  }

  /** The matched slots of a record: those of all its hits fetched, by score and then by slot. */
  lemma MatchedSlotsMeaning(hits: seq<Hit>, bits: nat, record: int) returns (scores: seq<real>)
    ensures var slots := MatchedSlots(hits, bits, record);
            && |scores| == |slots| == |PositionsOfRecord(hits, bits, record)|
            && (forall i, j :: 0 <= i < j < |slots| ==>
                  scores[i] < scores[j] || (scores[i] == scores[j] && slots[i] <= slots[j]))
            && (forall i :: 0 <= i < |slots| ==> HasFieldHit(hits, bits, record, slots[i], scores[i]))
            && (forall slot, score :: HasFieldHit(hits, bits, record, slot, score) ==>
                  exists i :: 0 <= i < |slots| && slots[i] == slot && scores[i] == score)
  {
    hide *;
    var sorted := SortedFieldsMeaning(hits, bits, record);
    OrderOfSorted(sorted);
    IdsAre(sorted);
    scores := seq(|sorted|, i requires 0 <= i < |sorted| => sorted[i].score);
    forall i | 0 <= i < |sorted| ensures HasFieldHit(hits, bits, record, sorted[i].id, sorted[i].score) {
      assert Hit(sorted[i].id, sorted[i].score) == sorted[i];
    }
    forall slot, score | HasFieldHit(hits, bits, record, slot, score)
      ensures exists i :: 0 <= i < |sorted| && sorted[i].id == slot && sorted[i].score == score
    {
      PlaceInSorted(sorted, slot, score);
    }
  }

  lemma IdsAre(hits: seq<Hit>)
    ensures |Ids(hits)| == |hits| && forall i :: 0 <= i < |hits| ==> Ids(hits)[i] == hits[i].id
  {
  }
}
