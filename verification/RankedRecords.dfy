/** Record search over a ranked strategy: completeness, pages, and independence of the id encoding. */
module RankedRecords {
  import opened Wrappers
  import opened HitOrder
  import opened Packing
  import opened Scoring
  import opened RecordSearch

  // ---------------------------------------------------------------------------
  // From stored fields to hits
  // ---------------------------------------------------------------------------

  function IdsOfRecord(ids: set<int>, bits: nat, record: int): set<int> {
    set id | id in ids && RecordOf(bits, id) == record
  }

  /** No record stores more than `fields` fields. */
  ghost predicate FewFields(ids: set<int>, bits: nat, fields: nat) {
    forall r :: |IdsOfRecord(ids, bits, r)| <= fields
  }

  lemma {:induction false} HitsAtMostIds(hits: set<Hit>, ids: set<int>)
    requires OnePerId(hits) && forall h :: h in hits ==> h.id in ids
    ensures |hits| <= |ids|
  {
    if hits != {} {
      var x :| x in hits;
      HitsAtMostIds(hits - {x}, ids - {x.id});
    }
  }

  lemma HitsOnePerId(scorer: Scorer, norm: map<int, string>)
    ensures OnePerId(Hits(scorer, norm))
    ensures forall h :: h in Hits(scorer, norm) ==> h.id in norm
  {
  }

  lemma FewFieldsFewHits(scorer: Scorer, norm: map<int, string>, bits: nat, fields: nat)
    requires FewFields(norm.Keys, bits, fields)
    ensures AtMostFields(Hits(scorer, norm), bits, fields)
  {
    var all := Hits(scorer, norm);
    HitsOnePerId(scorer, norm);
    forall r ensures |HitsOfRecord(all, bits, r)| <= fields {
      HitsAtMostIds(HitsOfRecord(all, bits, r), IdsOfRecord(norm.Keys, bits, r));
    }
  }

  // ---------------------------------------------------------------------------
  // The answer of a record search
  // ---------------------------------------------------------------------------

  /** The limit of the underlying search: `limit * max(1, fields)`, saturating at 32 bits. */
  function RawLimit(limit: u32, fieldsPerRecord: u32): (r: u32)
    ensures r == U32_MAX || r == Product(limit, AtLeastOne(fieldsPerRecord))
  {
    var n := Product(limit, AtLeastOne(fieldsPerRecord));
    if n > U32_MAX then U32_MAX else n
  }

  function AtLeastOne(fields: nat): (r: nat)
    ensures r >= 1
  {
    if fields > 1 then fields else 1
  }

  /** Every record hit, best first. */
  ghost function AllRecords(scorer: Scorer, norm: map<int, string>, bits: nat): seq<Hit> {
    RecordRanking(Hits(scorer, norm), bits)
  }

  /** The host's field count is not an understatement, and the over-fetch is not cut short. */
  ghost predicate Covered(scorer: Scorer, norm: map<int, string>, bits: nat, limit: u32, fieldsPerRecord: u32) {
    && FewFields(norm.Keys, bits, AtLeastOne(fieldsPerRecord))
    && (Product(limit, AtLeastOne(fieldsPerRecord)) <= U32_MAX || |Hits(scorer, norm)| <= U32_MAX)
  }

  /** What collapsing the fetched hits yields, in ids, scores and slots. */
  ghost predicate RecordAnswer(out: seq<RecordHit>, fetched: seq<Hit>, bits: nat, limit: nat) {
    && AsHits(out) == Take(RecordRanking(Elements(fetched), bits), limit)
    && forall i ::
         0 <= i < |out| ==> out[i].matchedSlots == MatchedSlots(fetched, bits, out[i].recordId)
  }

  /** The record ids and scores are the first `limit` of the complete record ranking. */
  lemma RecordAnswerIsComplete(out: seq<RecordHit>, scorer: Scorer, norm: map<int, string>, bits: nat,
                               limit: u32, fieldsPerRecord: u32)
    requires RecordAnswer(out, Take(FullRanking(scorer, norm), RawLimit(limit, fieldsPerRecord)), bits, limit)
    requires Covered(scorer, norm, bits, limit, fieldsPerRecord)
    ensures AsHits(out) == Take(AllRecords(scorer, norm, bits), limit)
  {
    FewFieldsFewHits(scorer, norm, bits, AtLeastOne(fieldsPerRecord));
    ProductIsTimes(limit, AtLeastOne(fieldsPerRecord));
    OverFetchIsEnough(Hits(scorer, norm), bits, AtLeastOne(fieldsPerRecord), limit, RawLimit(limit, fieldsPerRecord));
  }

  /**
   * The exact condition: the answer is the front of the complete ranking just when the fetched hits belong to
   * `limit` records, or to all that match.
   */
  lemma RecordAnswerExactly(out: seq<RecordHit>, scorer: Scorer, norm: map<int, string>, bits: nat, n: nat, limit: nat)
    requires RecordAnswer(out, Take(FullRanking(scorer, norm), n), bits, limit)
    ensures AsHits(out) == Take(AllRecords(scorer, norm, bits), limit) <==>
            var seen := |RecordsOf(Elements(Take(FullRanking(scorer, norm), n)), bits)|;
            limit <= seen || seen == |RecordsOf(Hits(scorer, norm), bits)|
  {
    var all := Hits(scorer, norm);
    var top := Elements(Take(Ranking(all), n));
    TakeIsInitialSegment(all, n);
    CollapseSize(top, bits);
    CollapseSize(all, bits);
    EnoughRecordsExactly(top, all, bits, limit);
  }

  /** A record search answers with the front of the complete record ranking, if the hypotheses hold. */
  ghost predicate RecordFront(out: seq<RecordHit>, scorer: Scorer, norm: map<int, string>, bits: nat,
                              limit: u32, fieldsPerRecord: u32)
  {
    Covered(scorer, norm, bits, limit, fieldsPerRecord) ==> AsHits(out) == Take(AllRecords(scorer, norm, bits), limit)
  }

  /** A page is that slice of the complete record ranking. */
  ghost predicate RecordPage(page: seq<RecordHit>, scorer: Scorer, norm: map<int, string>, bits: nat,
                             perPage: nat, offset: nat, fieldsPerRecord: u32)
  {
    offset + perPage <= U32_MAX && Covered(scorer, norm, bits, offset + perPage, fieldsPerRecord) ==>
      AsHits(page) == Slice(AllRecords(scorer, norm, bits), offset, perPage)
  }

  lemma PageOfAnswer(all: seq<RecordHit>, page: seq<RecordHit>, scorer: Scorer, norm: map<int, string>, bits: nat,
                     perPage: nat, offset: nat, fieldsPerRecord: u32)
    requires offset + perPage <= U32_MAX && page == Slice(all, offset, perPage)
    requires RecordFront(all, scorer, norm, bits, offset + perPage, fieldsPerRecord)
    ensures RecordPage(page, scorer, norm, bits, perPage, offset, fieldsPerRecord)
  {
    if Covered(scorer, norm, bits, offset + perPage, fieldsPerRecord) {
      SliceOfTake(all, offset, perPage, page, AllRecords(scorer, norm, bits));
    }
  }

  /** There is only one answer. */
  lemma RecordAnswerUnique(out: seq<RecordHit>, other: seq<RecordHit>, fetched: seq<Hit>, bits: nat, limit: nat)
    requires RecordAnswer(out, fetched, bits, limit) && RecordAnswer(other, fetched, bits, limit)
    ensures out == other
  {
    assert |out| == |AsHits(out)| && |other| == |AsHits(other)|;
    forall i | 0 <= i < |out| ensures out[i] == other[i] {
      assert AsHits(out)[i] == Hit(out[i].recordId, out[i].score);
      assert AsHits(other)[i] == Hit(other[i].recordId, other[i].score);
    }
  }

  // ---------------------------------------------------------------------------
  // Changing the field bits does not change any answer
  // ---------------------------------------------------------------------------

  /** The same documents under re-packed ids. */
  ghost predicate Relabelled(after: map<int, string>, before: map<int, string>, from: nat, to: nat) {
    && ValidBits(from) && ValidBits(to)
    && (forall id :: id in before ==> Fits(from, to, id))
    && (forall id :: id in before ==> Repack(from, to, id) in after && after[Repack(from, to, id)] == before[id])
    && (forall id :: id in after ==> Repack(to, from, id) in before && Repack(from, to, Repack(to, from, id)) == id)
  }

  function RelabelHit(h: Hit, from: nat, to: nat): Hit {
    Hit(Repack(from, to, h.id), h.score)
  }

  function RelabelHits(hits: seq<Hit>, from: nat, to: nat): seq<Hit> {
    seq(|hits|, i requires 0 <= i < |hits| => RelabelHit(hits[i], from, to))
  }

  lemma RelabelledHits(scorer: Scorer, after: map<int, string>, before: map<int, string>, from: nat, to: nat, h: Hit)
    requires Relabelled(after, before, from, to)
    ensures h in Hits(scorer, after) <==> exists g :: g in Hits(scorer, before) && RelabelHit(g, from, to) == h
  {
    if h in Hits(scorer, after) {
      var earlier := Repack(to, from, h.id);
      assert earlier in before && after[h.id] == before[earlier];
      var g := Hit(earlier, h.score);
      assert scorer.Score(before[earlier]) == Some(h.score);
      assert g in Hits(scorer, before) && RelabelHit(g, from, to) == h;
    }
    if g :| g in Hits(scorer, before) && RelabelHit(g, from, to) == h {
      assert g.id in before && after[h.id] == before[g.id];
      assert scorer.Score(after[h.id]) == Some(h.score);
    }
  }

  /** Re-packing keeps the order of ids, so the ranking is the old one under new ids. */
  lemma RelabelledRanking(scorer: Scorer, after: map<int, string>, before: map<int, string>, from: nat, to: nat)
    requires Relabelled(after, before, from, to)
    ensures FullRanking(scorer, after) == RelabelHits(FullRanking(scorer, before), from, to)
  {
    var earlier := FullRanking(scorer, before);
    var r := RelabelHits(earlier, from, to);
    HitsOnePerId(scorer, before);
    forall i, j | 0 <= i < j < |r| ensures Before(r[i], r[j]) {
      assert Before(earlier[i], earlier[j]) && earlier[i] in earlier && earlier[j] in earlier;
      RepackOrder(from, to, earlier[i].id, earlier[j].id);
    }
    forall h ensures h in r <==> h in Hits(scorer, after) {
      RelabelledHits(scorer, after, before, from, to, h);
      if h in r {
        var i :| 0 <= i < |r| && r[i] == h;
        assert earlier[i] in earlier;
      }
      if h in Hits(scorer, after) {
        var g :| g in Hits(scorer, before) && RelabelHit(g, from, to) == h;
        var i :| 0 <= i < |earlier| && earlier[i] == g;
        assert r[i] == h;
      }
    }
    RankingUnique(r, Hits(scorer, after));
  }

  ghost predicate AllFitHits(hits: seq<Hit>, from: nat, to: nat) {
    ValidBits(from) && ValidBits(to) && forall h :: h in hits ==> Fits(from, to, h.id)
  }

  lemma {:induction false} RelabelledFieldHits(hits: seq<Hit>, from: nat, to: nat, record: int)
    requires AllFitHits(hits, from, to)
    ensures FieldHits(RelabelHits(hits, from, to), to, record) == FieldHits(hits, from, record)
  {
    if hits != [] {
      var front, last := hits[..|hits| - 1], hits[|hits| - 1];
      RelabelledFieldHits(front, from, to, record);
      var moved := RelabelHits(hits, from, to);
      assert moved[..|moved| - 1] == RelabelHits(front, from, to);
      assert last in hits;
      RepackFaithful(from, to, last.id);
    }
  }

  lemma RelabelledBest(hits: seq<Hit>, from: nat, to: nat, h: Hit)
    requires AllFitHits(hits, from, to) && h in hits
    ensures BestOfRecord(RelabelHit(h, from, to), Elements(RelabelHits(hits, from, to)), to)
            <==> BestOfRecord(h, Elements(hits), from)
  {
    var moved := RelabelHits(hits, from, to);
    RepackFaithful(from, to, h.id);
    if BestOfRecord(h, Elements(hits), from) {
      forall g | g in Elements(moved) && RecordOf(to, g.id) == RecordOf(from, h.id) ensures h.score <= g.score {
        var i :| 0 <= i < |moved| && moved[i] == g;
        assert hits[i] in hits;
        RepackFaithful(from, to, hits[i].id);
      }
    }
    if BestOfRecord(RelabelHit(h, from, to), Elements(moved), to) {
      forall g | g in Elements(hits) && RecordOf(from, g.id) == RecordOf(from, h.id) ensures h.score <= g.score {
        var i :| 0 <= i < |hits| && hits[i] == g;
        RepackFaithful(from, to, g.id);
        assert moved[i] in moved;
      }
    }
  }

  lemma RelabelledCollapse(hits: seq<Hit>, from: nat, to: nat)
    requires AllFitHits(hits, from, to)
    ensures Collapse(Elements(RelabelHits(hits, from, to)), to) == Collapse(Elements(hits), from)
  {
    var moved := RelabelHits(hits, from, to);
    forall c ensures c in Collapse(Elements(moved), to) <==> c in Collapse(Elements(hits), from) {
      if c in Collapse(Elements(moved), to) {
        var m :| m in Elements(moved) && BestOfRecord(m, Elements(moved), to) && Hit(RecordOf(to, m.id), m.score) == c;
        var i :| 0 <= i < |moved| && moved[i] == m;
        assert hits[i] in hits;
        RelabelledBest(hits, from, to, hits[i]);
        RepackFaithful(from, to, hits[i].id);
      }
      if c in Collapse(Elements(hits), from) {
        var h :| h in Elements(hits) && BestOfRecord(h, Elements(hits), from)
            && Hit(RecordOf(from, h.id), h.score) == c;
        var i :| 0 <= i < |hits| && hits[i] == h;
        assert moved[i] in moved;
        RelabelledBest(hits, from, to, h);
        RepackFaithful(from, to, h.id);
      }
    }
  }

  lemma TakeRelabelled(hits: seq<Hit>, from: nat, to: nat, n: nat)
    ensures Take(RelabelHits(hits, from, to), n) == RelabelHits(Take(hits, n), from, to)
  {
  }

  /** Ids, scores and matched slots of a record search are the same before and after changing the field bits. */
  lemma RecordAnswerUnchanged(out: seq<RecordHit>, scorer: Scorer, after: map<int, string>, before: map<int, string>,
                              from: nat, to: nat, n: nat, limit: nat)
    requires Relabelled(after, before, from, to)
    ensures RecordAnswer(out, Take(FullRanking(scorer, after), n), to, limit) <==>
            RecordAnswer(out, Take(FullRanking(scorer, before), n), from, limit)
  {
    var fetched := Take(FullRanking(scorer, before), n);
    RelabelledRanking(scorer, after, before, from, to);
    TakeRelabelled(FullRanking(scorer, before), from, to, n);
    HitsOnePerId(scorer, before);
    forall h | h in fetched ensures Fits(from, to, h.id) {
      assert h in FullRanking(scorer, before);
    }
    RelabelledCollapse(fetched, from, to);
    forall r ensures MatchedSlots(RelabelHits(fetched, from, to), to, r) == MatchedSlots(fetched, from, r) {
      RelabelledFieldHits(fetched, from, to, r);
    }
  }
}
