/** Collapsing field hits to records, and why over-fetching loses nothing. */
module RecordSearch {
  import opened Wrappers
  import opened HitOrder
  import opened Packing

  /** A record with its best score and the slots that matched, best first. */
  datatype RecordHit = RecordHit(recordId: int, score: real, matchedSlots: seq<int>)

  // ---------------------------------------------------------------------------
  // What collapsing means
  // ---------------------------------------------------------------------------

  predicate BestOfRecord(h: Hit, hits: set<Hit>, bits: nat) {
    forall g :: g in hits && RecordOf(bits, g.id) == RecordOf(bits, h.id) ==> h.score <= g.score
  }

  /** One hit per record, under the record's id, with the smallest score of its fields. */
  function Collapse(hits: set<Hit>, bits: nat): set<Hit> {
    set h | h in hits && BestOfRecord(h, hits, bits) :: Hit(RecordOf(bits, h.id), h.score)
  }

  /** The ranking of all matching records. */
  ghost function RecordRanking(hits: set<Hit>, bits: nat): seq<Hit> {
    Ranking(Collapse(hits, bits))
  }

  /** The field hits of one record, in the order given, as (slot, score). */
  function FieldHits(hits: seq<Hit>, bits: nat, record: int): seq<Hit> {
    if hits == [] then []
    else
      var front, h := FieldHits(hits[..|hits| - 1], bits, record), hits[|hits| - 1];
      if RecordOf(bits, h.id) == record then front + [Hit(SlotOf(bits, h.id), h.score)] else front
  }

  function Ids(hits: seq<Hit>): seq<int> {
    seq(|hits|, i requires 0 <= i < |hits| => hits[i].id)
  }

  /** The matched slots of a record, best score first, ties by slot. */
  function MatchedSlots(hits: seq<Hit>, bits: nat, record: int): seq<int> {
    Ids(SortHits(FieldHits(hits, bits, record)))
  }

  function AsHits(records: seq<RecordHit>): seq<Hit> {
    seq(|records|, i requires 0 <= i < |records| => Hit(records[i].recordId, records[i].score))
  }

  // ---------------------------------------------------------------------------
  // The collapsing loop
  // ---------------------------------------------------------------------------

  /** A map entry: the best score so far (none stands for infinity) and the matching fields. */
  datatype Group = Group(best: Option<real>, fields: seq<Hit>)

  function MinScore(fields: seq<Hit>): Option<real> {
    if fields == [] then None
    else
      var front, s := MinScore(fields[..|fields| - 1]), fields[|fields| - 1].score;
      if front.None? || s < front.value then Some(s) else front
  }

  ghost predicate Grouped(groups: map<int, Group>, hits: seq<Hit>, bits: nat) {
    && (forall r :: r in groups <==> FieldHits(hits, bits, r) != [])
    && (forall r :: r in groups ==>
          groups[r].fields == FieldHits(hits, bits, r) && groups[r].best == MinScore(FieldHits(hits, bits, r)))
  }

  method GroupByRecord(hits: seq<Hit>, bits: nat) returns (groups: map<int, Group>)
    ensures Grouped(groups, hits, bits)
  {
    groups := map[];
    for i := 0 to |hits|
      invariant Grouped(groups, hits[..i], bits)
    {
      var h := hits[i];
      assert hits[..i + 1][..i] == hits[..i];
      var record, slot := RecordOf(bits, h.id), SlotOf(bits, h.id);
      var entry := if record in groups then groups[record] else Group(None, []);
      assert entry.fields == FieldHits(hits[..i], bits, record) && entry.best == MinScore(entry.fields);
      var best := if entry.best.None? || h.score < entry.best.value then Some(h.score) else entry.best;
      var fields := entry.fields + [Hit(slot, h.score)];
      assert fields[..|fields| - 1] == entry.fields;
      groups := groups[record := Group(best, fields)];
    }
    assert hits[..|hits|] == hits;
  }

  lemma {:induction false} MinScoreMeaning(hits: seq<Hit>, bits: nat, record: int)
    ensures var m := MinScore(FieldHits(hits, bits, record));
            && (m.None? <==> FieldHits(hits, bits, record) == [])
            && (m.None? ==> forall h :: h in hits ==> RecordOf(bits, h.id) != record)
            && (m.Some? ==> exists h :: h in hits && RecordOf(bits, h.id) == record && h.score == m.value)
            && (m.Some? ==> forall h :: h in hits && RecordOf(bits, h.id) == record ==> m.value <= h.score)
  {
    if hits != [] {
      var front, last := hits[..|hits| - 1], hits[|hits| - 1];
      assert hits == front + [last];
      MinScoreMeaning(front, bits, record);
      if RecordOf(bits, last.id) == record {
        var fields := FieldHits(hits, bits, record);
        assert fields[..|fields| - 1] == FieldHits(front, bits, record);
        assert last in hits;
      }
    }
  }

  /** The groups' best scores are exactly the collapsed hits. */
  lemma GroupsAreCollapse(groups: map<int, Group>, hits: seq<Hit>, bits: nat, x: Hit)
    requires Grouped(groups, hits, bits)
    ensures x in Collapse(Elements(hits), bits) <==> x.id in groups && groups[x.id].best == Some(x.score)
  {
    MinScoreMeaning(hits, bits, x.id);
    if x in Collapse(Elements(hits), bits) {
      var h :| h in Elements(hits) && BestOfRecord(h, Elements(hits), bits) && Hit(RecordOf(bits, h.id), h.score) == x;
      assert h in hits;
    }
    if x.id in groups && groups[x.id].best == Some(x.score) {
      var h :| h in hits && RecordOf(bits, h.id) == x.id && h.score == x.score;
      assert BestOfRecord(h, Elements(hits), bits);
      assert Hit(RecordOf(bits, h.id), h.score) == x;
    }
  }

  /** Drains the map, in whatever order it yields its entries. */
  method DrainGroups(groups: map<int, Group>, ghost hits: seq<Hit>, ghost bits: nat) returns (records: seq<Hit>)
    requires Grouped(groups, hits, bits)
    ensures Distinct(records) && Elements(records) == Collapse(Elements(hits), bits)
  {
    records := [];
    var rest := groups.Keys;
    while rest != {}
      invariant rest <= groups.Keys
      invariant Distinct(records)
      invariant forall x :: x in records <==> x.id in groups.Keys - rest && groups[x.id].best == Some(x.score)
      decreases rest
    {
      assert (forall x: int :: x !in rest) ==> rest == {};
      var r :| r in rest;
      MinScoreMeaning(hits, bits, r);
      rest := rest - {r};
      records := records + [Hit(r, groups[r].best.value)];
    }
    forall x ensures x in Elements(records) <==> x in Collapse(Elements(hits), bits) {
      GroupsAreCollapse(groups, hits, bits, x);
    }
  }

  /** Attaches its matched slots to each ranked record. */
  method AttachSlots(ranked: seq<Hit>, groups: map<int, Group>, ghost hits: seq<Hit>, ghost bits: nat)
    returns (out: seq<RecordHit>)
    requires Grouped(groups, hits, bits)
    requires forall x :: x in ranked ==> x.id in groups
    ensures AsHits(out) == ranked
    ensures forall i :: 0 <= i < |out| ==> out[i].matchedSlots == MatchedSlots(hits, bits, out[i].recordId)
  {
    out := seq(|ranked|, i requires 0 <= i < |ranked| && ranked[i].id in groups =>
      RecordHit(ranked[i].id, ranked[i].score, Ids(SortHits(groups[ranked[i].id].fields))));
  }

  /** Group, take each record's best, rank by (score, record id), truncate; the map's order never shows. */
  method CollapseHits(hits: seq<Hit>, bits: nat, limit: nat) returns (out: seq<RecordHit>)
    ensures AsHits(out) == Take(RecordRanking(Elements(hits), bits), limit)
    ensures forall i :: 0 <= i < |out| ==> out[i].matchedSlots == MatchedSlots(hits, bits, out[i].recordId)
  {
    var groups := GroupByRecord(hits, bits);
    var records := DrainGroups(groups, hits, bits);
    var ranked := RankAndTruncate(records, limit);
    forall x | x in ranked ensures x.id in groups {
      assert x in Ranking(Elements(records));
      GroupsAreCollapse(groups, hits, bits, x);
    }
    out := AttachSlots(ranked, groups, hits, bits);
  }

  // ---------------------------------------------------------------------------
  // Over-fetching `limit * fields` hits is enough
  // ---------------------------------------------------------------------------

  ghost predicate OnePerId(hits: set<Hit>) {
    forall g, h :: g in hits && h in hits && g.id == h.id ==> g == h
  }

  function RecordsOf(hits: set<Hit>, bits: nat): set<int> {
    set h | h in hits :: RecordOf(bits, h.id)
  }

  function HitsOfRecord(hits: set<Hit>, bits: nat, record: int): set<Hit> {
    set h | h in hits && RecordOf(bits, h.id) == record
  }

  /** No record has more than `fields` hits. */
  ghost predicate AtMostFields(hits: set<Hit>, bits: nat, fields: nat) {
    forall r :: |HitsOfRecord(hits, bits, r)| <= fields
  }

  lemma {:induction false} HitsPerRecord(hits: set<Hit>, bits: nat, fields: nat)
    requires AtMostFields(hits, bits, fields)
    ensures |hits| <= |RecordsOf(hits, bits)| * fields
    decreases |hits|
  {
    if hits == {} {
      assert RecordsOf(hits, bits) == {};
    } else {
      var x :| x in hits;
      var r := RecordOf(bits, x.id);
      var rest := hits - HitsOfRecord(hits, bits, r);
      assert x in HitsOfRecord(hits, bits, r);
      WithoutRecord(hits, bits, fields, r);
      HitsPerRecord(rest, bits, fields);
      var n := |RecordsOf(rest, bits)|;
      assert (n + 1) * fields == n * fields + fields;
    }
  }

  lemma WithoutRecord(hits: set<Hit>, bits: nat, fields: nat, r: int)
    requires AtMostFields(hits, bits, fields) && r in RecordsOf(hits, bits)
    ensures var rest := hits - HitsOfRecord(hits, bits, r);
            && AtMostFields(rest, bits, fields)
            && |hits| <= |rest| + fields
            && |RecordsOf(hits, bits)| == |RecordsOf(rest, bits)| + 1
  {
    var mine := HitsOfRecord(hits, bits, r);
    var rest := hits - mine;
    forall q ensures |HitsOfRecord(rest, bits, q)| <= fields {
      SubsetSize(HitsOfRecord(rest, bits, q), HitsOfRecord(hits, bits, q));
    }
    assert mine <= hits;
    assert RecordsOf(hits, bits) == RecordsOf(rest, bits) + {r} && r !in RecordsOf(rest, bits);
  }

  lemma {:induction false} BestExists(hits: set<Hit>, bits: nat, record: int) returns (h: Hit)
    requires record in RecordsOf(hits, bits)
    ensures h in hits && RecordOf(bits, h.id) == record && BestOfRecord(h, hits, bits)
    decreases |hits|
  {
    var x :| x in hits && RecordOf(bits, x.id) == record;
    var rest := hits - {x};
    if record in RecordsOf(rest, bits) {
      var y := BestExists(rest, bits, record);
      h := if x.score < y.score then x else y;
    } else {
      h := x;
      forall g | g in hits && RecordOf(bits, g.id) == record ensures x.score <= g.score {
        assert g == x || g in rest;
      }
    }
  }

  lemma {:induction false} ImageAtMost(hits: set<Hit>)
    ensures |set h | h in hits :: h.id| <= |hits|
  {
    if hits != {} {
      var x :| x in hits;
      ImageAtMost(hits - {x});
      assert (set h | h in hits :: h.id) == (set h | h in hits - {x} :: h.id) + {x.id};
    }
  }

  /** There is a collapsed hit for every record that matched. */
  lemma CollapseCoversRecords(hits: set<Hit>, bits: nat)
    ensures |RecordsOf(hits, bits)| <= |Collapse(hits, bits)|
    ensures (set c | c in Collapse(hits, bits) :: c.id) == RecordsOf(hits, bits)
  {
    var ids := set c | c in Collapse(hits, bits) :: c.id;
    forall r | r in RecordsOf(hits, bits) ensures r in ids {
      var h := BestExists(hits, bits, r);
      assert Hit(RecordOf(bits, h.id), h.score) in Collapse(hits, bits);
    }
    forall r | r in ids ensures r in RecordsOf(hits, bits) {
      var c :| c in Collapse(hits, bits) && c.id == r;
      var h :| h in hits && BestOfRecord(h, hits, bits) && Hit(RecordOf(bits, h.id), h.score) == c;
    }
    assert ids == RecordsOf(hits, bits);
    ImageAtMost(Collapse(hits, bits));
  }

  ghost predicate InitialSegment(top: set<Hit>, all: set<Hit>) {
    top <= all && forall x, y :: x in top && y in all - top ==> Before(x, y)
  }

  lemma CollapseKeepsBest(top: set<Hit>, all: set<Hit>, bits: nat)
    requires InitialSegment(top, all)
    ensures Collapse(top, bits) <= Collapse(all, bits)
  {
    forall c | c in Collapse(top, bits) ensures c in Collapse(all, bits) {
      var h :| h in top && BestOfRecord(h, top, bits) && Hit(RecordOf(bits, h.id), h.score) == c;
      forall g | g in all && RecordOf(bits, g.id) == RecordOf(bits, h.id) ensures h.score <= g.score {
        if g !in top { assert Before(h, g); }
      }
      assert BestOfRecord(h, all, bits);
    }
  }

  /** Records seen among the best hits come before every record that is not. */
  lemma CollapseIsInitialSegment(top: set<Hit>, all: set<Hit>, bits: nat)
    requires InitialSegment(top, all)
    ensures InitialSegment(Collapse(top, bits), Collapse(all, bits))
  {
    CollapseKeepsBest(top, all, bits);
    forall x, y | x in Collapse(top, bits) && y in Collapse(all, bits) - Collapse(top, bits) ensures Before(x, y) {
      var h :| h in top && BestOfRecord(h, top, bits) && Hit(RecordOf(bits, h.id), h.score) == x;
      var g :| g in all && BestOfRecord(g, all, bits) && Hit(RecordOf(bits, g.id), g.score) == y;
      assert g in top ==> BestOfRecord(g, top, bits) && y in Collapse(top, bits);
      assert Before(h, g);
      if h.score == g.score { RecordMonotone(bits, h.id, g.id); }
    }
  }

  lemma CancelFactor(a: nat, b: nat, f: nat)
    requires f > 0 && a * f <= b * f
    ensures a <= b
  {
    if b < a { MulGap(b, a, f); }
  }

  /** The best `n` hits, fewer than all, cover enough records. */
  lemma TopCoversRecords(top: set<Hit>, all: set<Hit>, bits: nat, fields: nat, limit: nat)
    requires top <= all && fields > 0 && AtMostFields(all, bits, fields) && limit * fields <= |top|
    ensures limit <= |Collapse(top, bits)|
  {
    forall r ensures |HitsOfRecord(top, bits, r)| <= fields {
      SubsetSize(HitsOfRecord(top, bits, r), HitsOfRecord(all, bits, r));
    }
    HitsPerRecord(top, bits, fields);
    CancelFactor(limit, |RecordsOf(top, bits)|, fields);
    CollapseCoversRecords(top, bits);
  }

  lemma TakeOfConcat(a: seq<Hit>, b: seq<Hit>, limit: nat)
    requires limit <= |a|
    ensures Take(a + b, limit) == Take(a, limit)
  {
  }

  lemma EnoughRecords(top: set<Hit>, all: set<Hit>, bits: nat, limit: nat)
    requires InitialSegment(top, all) && limit <= |Collapse(top, bits)|
    ensures Take(RecordRanking(top, bits), limit) == Take(RecordRanking(all, bits), limit)
  {
    CollapseIsInitialSegment(top, all, bits);
    var low, every := Collapse(top, bits), Collapse(all, bits);
    RankingInitialSegment(low, every);
    TakeOfConcat(Ranking(low), Ranking(every - low), limit);
  }

  lemma FewerAreDifferent(low: set<Hit>, every: set<Hit>, limit: nat)
    requires low <= every && |low| < limit
    ensures Take(Ranking(low), limit) == Take(Ranking(every), limit) <==> |low| == |every|
  {
    SubsetSize(low, every);
  }

  /** Exactly when the best hits belong to enough records, or to all, do they collapse to the front of the ranking. */
  lemma EnoughRecordsExactly(top: set<Hit>, all: set<Hit>, bits: nat, limit: nat)
    requires InitialSegment(top, all)
    ensures Take(RecordRanking(top, bits), limit) == Take(RecordRanking(all, bits), limit) <==>
            limit <= |Collapse(top, bits)| || |Collapse(top, bits)| == |Collapse(all, bits)|
  {
    CollapseKeepsBest(top, all, bits);
    if limit <= |Collapse(top, bits)| {
      EnoughRecords(top, all, bits, limit);
    } else {
      FewerAreDifferent(Collapse(top, bits), Collapse(all, bits), limit);
    }
  }

  /**
   * Collapsing the first `n` hits and keeping `limit` records gives the first `limit` records of the complete
   * ranking, as soon as `n` covers `limit` records of at most `fields` hits each, or all the hits.
   */
  lemma OverFetchIsEnough(all: set<Hit>, bits: nat, fields: nat, limit: nat, n: nat)
    requires fields > 0 && AtMostFields(all, bits, fields)
    requires limit * fields <= n || |all| <= n
    ensures Take(RecordRanking(Elements(Take(Ranking(all), n)), bits), limit) == Take(RecordRanking(all, bits), limit)
  {
    var taken := Take(Ranking(all), n);
    var top := Elements(taken);
    if |all| <= n {
      assert top == all;
    } else {
      TakeIsInitialSegment(all, n);
      assert |top| == |Ranking(top)| == n;
      TopCoversRecords(top, all, bits, fields, limit);
      EnoughRecords(top, all, bits, limit);
    }
  }

  /** Two fields of record 0 ahead of one field of record 1, with one field bit. */
  const TWO_AHEAD: seq<Hit> := [Hit(0, 0.0), Hit(1, 0.0), Hit(2, 1.0)]

  lemma TwoAheadRecords()
    ensures RecordOf(1, 0) == 0 && RecordOf(1, 1) == 0 && RecordOf(1, 2) == 1
  {
    assert Pow2(1) == 2;
  }

  lemma TwoAheadTop()
    ensures Ranking(Elements(TWO_AHEAD)) == TWO_AHEAD
    ensures Take(TWO_AHEAD, 2) == [Hit(0, 0.0), Hit(1, 0.0)]
  {
    RankingUnique(TWO_AHEAD, Elements(TWO_AHEAD));
  }

  lemma TwoAheadCounts()
    ensures |Collapse(Elements([Hit(0, 0.0), Hit(1, 0.0)]), 1)| == 1
    ensures |Collapse(Elements(TWO_AHEAD), 1)| == 2
  {
    TwoAheadRecords();
    var top, all := Elements([Hit(0, 0.0), Hit(1, 0.0)]), Elements(TWO_AHEAD);
    CollapseSize(top, 1);
    CollapseSize(all, 1);
    assert top == {Hit(0, 0.0), Hit(1, 0.0)} && all == {Hit(0, 0.0), Hit(1, 0.0), Hit(2, 1.0)};
    assert RecordsOf(top, 1) == {0};
    assert RecordsOf(all, 1) == {0, 1};
  }

  /** Without enough of the hits a record is lost. */
  lemma TwoAheadLoses()
    ensures |RecordRanking(Elements(Take(Ranking(Elements(TWO_AHEAD)), 2)), 1)| == 1
    ensures |RecordRanking(Elements(TWO_AHEAD), 1)| == 2
  {
    TwoAheadTop();
    TwoAheadCounts();
    RankingSize(Elements([Hit(0, 0.0), Hit(1, 0.0)]));
    RankingSize(Elements(TWO_AHEAD));
  }

  lemma RankingSize(hits: set<Hit>)
    ensures |RecordRanking(hits, 1)| == |Collapse(hits, 1)|
  {
  }

  // ---------------------------------------------------------------------------
  // Counting and slicing
  // ---------------------------------------------------------------------------

  lemma RecordsOfSnoc(hits: seq<Hit>, i: nat, bits: nat)
    requires i < |hits|
    ensures RecordsOf(Elements(hits[..i + 1]), bits) ==
        RecordsOf(Elements(hits[..i]), bits) + {RecordOf(bits, hits[i].id)}
  {
    assert hits[..i + 1] == hits[..i] + [hits[i]];
    assert Elements(hits[..i + 1]) == Elements(hits[..i]) + {hits[i]};
  }

  function RecordsOfIds(ids: set<int>, bits: nat): set<int> {
    set id | id in ids :: RecordOf(bits, id)
  }

  /** The records of hits that list exactly `ids`. */
  lemma RecordsOfAll(hits: seq<Hit>, ids: set<int>, bits: nat)
    requires (set h | h in hits :: h.id) == ids
    ensures RecordsOf(Elements(hits), bits) == RecordsOfIds(ids, bits)
  {
    forall r | r in RecordsOfIds(ids, bits) ensures r in RecordsOf(Elements(hits), bits) {
      var id :| id in ids && RecordOf(bits, id) == r;
      var h :| h in hits && h.id == id;
      assert h in Elements(hits);
    }
  }

  lemma CollapseOnePerRecord(hits: set<Hit>, bits: nat)
    ensures OnePerId(Collapse(hits, bits))
  {
    forall c, d | c in Collapse(hits, bits) && d in Collapse(hits, bits) && c.id == d.id ensures c == d {
      var g :| g in hits && BestOfRecord(g, hits, bits) && Hit(RecordOf(bits, g.id), g.score) == c;
      var h :| h in hits && BestOfRecord(h, hits, bits) && Hit(RecordOf(bits, h.id), h.score) == d;
    }
  }

  lemma {:induction false} ImageOfDistinctIds(hits: set<Hit>)
    requires OnePerId(hits)
    ensures |set h | h in hits :: h.id| == |hits|
  {
    if hits != {} {
      var x :| x in hits;
      ImageOfDistinctIds(hits - {x});
      assert (set h | h in hits :: h.id) == (set h | h in hits - {x} :: h.id) + {x.id};
    }
  }

  /** One collapsed hit per matching record. */
  lemma CollapseSize(hits: set<Hit>, bits: nat)
    ensures |Collapse(hits, bits)| == |RecordsOf(hits, bits)|
  {
    CollapseCoversRecords(hits, bits);
    CollapseOnePerRecord(hits, bits);
    ImageOfDistinctIds(Collapse(hits, bits));
  }

  lemma SliceOfTake(all: seq<RecordHit>, offset: nat, limit: nat, page: seq<RecordHit>, full: seq<Hit>)
    requires page == Slice(all, offset, limit) && AsHits(all) == Take(full, offset + limit)
    ensures AsHits(page) == Slice(full, offset, limit)
  {
    PageOfTake(full, offset, limit);
    assert |all| == |AsHits(all)|;
    assert forall i :: 0 <= i < |page| ==> page[i] == all[offset + i];
  }
}
