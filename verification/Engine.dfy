/** The search engine over one open index. */
module Engine {
  import opened Wrappers
  import opened Text
  import opened Config
  import opened Normalize
  import opened Packing
  import opened IndexState
  import opened HitOrder
  import opened RangeScan
  import opened Scoring
  import opened Strategies
  import opened RecordSearch
  import opened RankedRecords
  import Highlight
  import Runs

  /** The database behind an engine: the tables `docs`, `entries` and `meta`. */
  class Connection {
    var docs: map<int, string>
    var entries: map<int, Row>
    var profile: Option<string>
    var bits: Option<nat>

    constructor ()
      ensures State() == Store(map[], map[], None, None)
    {
      docs, entries, profile, bits := map[], map[], None, None;
    }

    function State(): Store
      reads this
    {
      Store(docs, entries, profile, bits)
    }

    method DeleteDoc(id: int)
      modifies this`docs
      ensures docs == old(docs) - {id}
    {
      docs := docs - {id};
    }

    /** The full-text table rejects a row id it already holds, so the caller has to have cleared it. */
    method InsertDoc(id: int, norm: string)
      requires id !in docs
      modifies this`docs
      ensures docs == old(docs)[id := norm]
    {
      docs := docs[id := norm];
    }

    method DeleteEntry(id: int)
      modifies this`entries
      ensures entries == old(entries) - {id}
    {
      entries := entries - {id};
    }

    method ReplaceEntry(id: int, row: Row)
      modifies this`entries
      ensures entries == old(entries)[id := row]
    {
      entries := entries[id := row];
    }

    method ClearIdRange(lo: int, hi: int)
      modifies this
      ensures State() == ClearedRange(old(State()), lo, hi)
    {
      docs := map id | id in docs && !(lo <= id <= hi) :: docs[id];
      entries := map id | id in entries && !(lo <= id <= hi) :: entries[id];
    }

    method StampProfile(key: string)
      modifies this`profile
      ensures profile == Some(key)
    {
      profile := Some(key);
    }

    method StampFieldBits(n: nat)
      modifies this`bits
      ensures bits == Some(n)
    {
      bits := Some(n);
    }
  }

  /** The page starts past 32 bits, or a ranked strategy would have to fetch past them. */
  predicate PageOverflows(st: Strategy, page: u32, perPage: u32) {
    Offset(page, perPage) > U32_MAX || (st.IsRanked() && perPage != 0 && Offset(page, perPage) + perPage > U32_MAX)
  }

  /** `n` counts the records with a hit in some unlimited answer. */
  ghost predicate CountsRecords(n: nat, st: Strategy, fold: char -> char, norm: map<int, string>, q: string, bits: nat)
  {
    exists hits :: Answers(hits, st, fold, norm, q, U32_MAX, 0) && n == |RecordsOf(Elements(hits), bits)|
  }

  /** With at most `u32::MAX` hits that is the number of all records that match. */
  lemma CountsAllRecords(n: nat, st: Strategy, fold: char -> char, norm: map<int, string>, q: string, bits: nat)
    requires CountsRecords(n, st, fold, norm, q, bits)
    ensures st.IsRanked() && |Hits(st.ScorerFor(q), norm)| <= U32_MAX ==> n == |AllRecords(st.ScorerFor(q), norm, bits)|
    ensures !st.IsRanked() && |SelectedIds(st, fold, norm, q)| <= U32_MAX ==>
              n == |RecordsOfIds(SelectedIds(st, fold, norm, q), bits)|
  {
    var hits :| Answers(hits, st, fold, norm, q, U32_MAX, 0) && n == |RecordsOf(Elements(hits), bits)|;
    if st.IsRanked() {
      TakeIsSlice(FullRanking(st.ScorerFor(q), norm), U32_MAX);
      if |Hits(st.ScorerFor(q), norm)| <= U32_MAX {
        assert Elements(hits) == Hits(st.ScorerFor(q), norm);
        CollapseSize(Elements(hits), bits);
      }
    } else if |SelectedIds(st, fold, norm, q)| <= U32_MAX {
      SelectsAll(hits, SelectedIds(st, fold, norm, q), U32_MAX);
      RecordsOfAll(hits, SelectedIds(st, fold, norm, q), bits);
    }
  }

  /** What a record search reads: the strategy, the folding, the normal forms, the encoding of ids. */
  datatype RecordView = RecordView(st: Strategy, fold: char -> char, norm: map<int, string>, bits: nat) {
    /** `out` collapses some answer of the strategy, whatever order an unranked one came in. */
    ghost predicate Finds(out: seq<RecordHit>, q: string, limit: u32, fieldsPerRecord: u32) {
      if q == "" then out == []
      else exists hits :: Answers(hits, st, fold, norm, q, RawLimit(limit, fieldsPerRecord), 0)
                          && RecordAnswer(out, hits, bits, limit)
    }
  }

  /** A ranked strategy has one answer: the best hits collapsed, the front of the complete ranking of records. */
  lemma RankedRecordsFound(view: RecordView, out: seq<RecordHit>, q: string, limit: u32, fieldsPerRecord: u32)
    requires q != "" && view.st.IsRanked()
    ensures view.Finds(out, q, limit, fieldsPerRecord) ==>
              && RecordAnswer(out, Take(FullRanking(view.st.ScorerFor(q), view.norm), RawLimit(limit, fieldsPerRecord)),
                              view.bits, limit)
              && RecordFront(out, view.st.ScorerFor(q), view.norm, view.bits, limit, fieldsPerRecord)
  {
    var scorer, raw := view.st.ScorerFor(q), RawLimit(limit, fieldsPerRecord);
    TakeIsSlice(FullRanking(scorer, view.norm), raw);
    if view.Finds(out, q, limit, fieldsPerRecord) && Covered(scorer, view.norm, view.bits, limit, fieldsPerRecord) {
      RecordAnswerIsComplete(out, scorer, view.norm, view.bits, limit, fieldsPerRecord);
    }
  }

  class SearchEngine {
    const conn: Connection
    const tables: UnicodeTables
    const options: NormalizeOptions
    const strategy: Strategy
    var fieldBits: nat

    constructor Assemble(conn: Connection, tables: UnicodeTables, options: NormalizeOptions, strategy: Strategy,
                         fieldBits: nat)
      ensures this.conn == conn && this.tables == tables && this.options == options
      ensures this.strategy == strategy && this.fieldBits == fieldBits
    {
      this.conn, this.tables, this.options, this.strategy, this.fieldBits := conn, tables, options, strategy, fieldBits;
    }

    /** This engine and its index, as a state of a run. */
    function Current(): Runs.System
      reads this, conn
    {
      Runs.System(conn.State(), Some(Runs.Handle(options, fieldBits)))
    }

    /** A requested value is validated and must match a stored one; without a request the stored value is adopted. */
    static method ResolveBits(stored: Option<nat>, fieldBits: Option<byte>) returns (r: Result<nat, SearchError>)
      ensures r == ResolvedBits(stored, fieldBits)
    {
      match fieldBits {
        case Some(n) =>
          if !ValidBits(n) { return Err(InvalidFieldBits(n)); }
          if stored.Some? && stored.value != n { return Err(FieldBitsMismatch(stored.value, n)); }
          return Ok(n);
        case None =>
          return Ok(if stored.Some? then stored.value else DEFAULT_FIELD_BITS);
      }
    }

    /** Opens an index; on an error the stored index is as it was. */
    static method Open(conn: Connection, tables: UnicodeTables, options: NormalizeOptions, strategy: Strategy,
                       fieldBits: Option<byte>, rebuild: bool)
      returns (r: Result<SearchEngine, SearchError>)
      modifies conn
      ensures match OpenedStore(tables, old(conn.State()), options, fieldBits, rebuild)
              case Err(e) => r == Err(e) && conn.State() == old(conn.State())
              case Ok(done) =>
                && r.Ok? && fresh(r.value)
                && r.value.conn == conn && r.value.tables == tables && r.value.options == options
                    && r.value.strategy == strategy
                && r.value.fieldBits == done.bits && conn.State() == done.store
      ensures var after := Runs.Step(tables, Runs.System(old(conn.State()), None),
          Runs.Open(options, fieldBits, rebuild));
              conn.State() == after.store && (r.Ok? <==> after.engine.Some?) && (r.Ok? ==> r.value.Current() == after)
    {
      hide Reindexed, FingerprintKey;
      var bits := ResolveBits(StoredBits(conn.State()), fieldBits);
      if bits.Err? { return Err(bits.error); }
      var requested := Fingerprint(options);
      var stored := StoredProfile(conn.State());
      var mismatch := stored.Some? && stored.value != requested;
      if mismatch && !rebuild { return Err(ConfigMismatch(stored.value, requested)); }
      var engine := new SearchEngine.Assemble(conn, tables, options, strategy, bits.value);
      engine.Adopt(mismatch, requested);
      return Ok(engine);
    }

    /** Stamps the index as this engine's, regenerating it first if it was built differently. */
    method Adopt(mismatch: bool, requested: string)
      requires requested == FingerprintKey(options)
      modifies conn
      ensures var stamped := old(conn.State()).(bits := Some(fieldBits));
              conn.State() == if mismatch then Reindexed(tables, options, stamped)
                  else stamped.(profile := Some(requested))
    {
      conn.StampFieldBits(fieldBits);
      if mismatch {
        var _ := Reindex();
      } else {
        conn.StampProfile(requested);
      }
    }

    method Index(id: i64, text: string)
      modifies conn
      ensures conn.State() == Indexed(tables, options, old(conn.State()), id, text)
      ensures Current() == Runs.Step(tables, old(Current()), Runs.Index(id, text))
    {
      var norm := NormalizeText(tables, options, text);
      conn.DeleteDoc(id);
      conn.InsertDoc(id, norm);
      assert conn.docs == old(conn.docs)[id := norm];
      conn.ReplaceEntry(id, Row(norm, Reverse(norm), Some(text)));
    }

    /** Re-normalizes every row that kept its raw text and stamps this engine's fingerprint. */
    method Reindex() returns (count: nat)
      modifies conn
      ensures conn.State() == Reindexed(tables, options, old(conn.State()))
      ensures count == |RawIds(old(conn.State()))|
      ensures Current() == Runs.Step(tables, old(Current()), Runs.Reindex)
    {
      Runs.StepReindex(tables, conn.State(), Runs.Handle(options, fieldBits));
      var ids := RawIds(conn.State());
      count := |ids|;
      RegenerateRows(ids);
      var key := Fingerprint(options);
      conn.StampProfile(key);
    }

    /** The loop of `Reindex`, in whatever order the rows come. */
    method RegenerateRows(ids: set<int>)
      requires ids <= RawIds(conn.State())
      modifies conn
      ensures conn.State() == ReindexedRows(tables, options, old(conn.State()), ids)
    {
      ghost var before := conn.State();
      var rest := ids;
      ReindexedNone(tables, options, before);
      assert ids - rest == {};
      while rest != {}
        invariant rest <= ids
        invariant conn.State() == ReindexedRows(tables, options, before, ids - rest)
        decreases rest
      {
        assert (forall x: int :: x !in rest) ==> rest == {};
        var id :| id in rest;
        ReindexedOneMore(tables, options, before, ids - rest, id);
        assert ids - (rest - {id}) == ids - rest + {id};
        rest := rest - {id};
        RegenerateRow(id);
      }
      assert ids - {} == ids;
    }

    /** The loop body of `RegenerateRows`: one row from its retained raw text. */
    method RegenerateRow(id: int)
      requires HasRaw(conn.State(), id)
      modifies conn
      ensures conn.State() == Regenerated(tables, options, old(conn.State()), id)
    {
      var row := conn.entries[id];
      var norm := NormalizeText(tables, options, row.raw.value);
      conn.ReplaceEntry(id, row.(norm := norm, normRev := Reverse(norm)));
      conn.DeleteDoc(id);
      conn.InsertDoc(id, norm);
    }

    method Remove(id: i64)
      modifies conn
      ensures conn.State() == Removed(old(conn.State()), id)
      ensures Current() == Runs.Step(tables, old(Current()), Runs.Remove(id))
    {
      conn.DeleteDoc(id);
      conn.DeleteEntry(id);
    }

    /** The loop body of `IndexBatch`. */
    method IndexItemRow(item: IndexItem)
      modifies conn
      ensures conn.State() == Indexed(tables, options, old(conn.State()), item.id, item.text)
    {
      var norm := NormalizeText(tables, options, item.text);
      conn.DeleteDoc(item.id);
      conn.InsertDoc(item.id, norm);
      assert conn.docs == old(conn.docs)[item.id := norm];
      conn.ReplaceEntry(item.id, Row(norm, Reverse(norm), Some(item.text)));
    }

    /** Replaces many documents in one transaction, later items winning. */
    method IndexBatch(items: seq<IndexItem>) returns (count: nat)
      modifies conn
      ensures conn.State() == IndexedAll(tables, options, old(conn.State()), items)
      ensures Current() == Runs.Step(tables, old(Current()), Runs.IndexBatch(items))
      ensures count == |items|
    {
      if items == [] { return 0; }
      for i := 0 to |items|
        invariant conn.State() == IndexedAll(tables, options, old(conn.State()), items[..i])
      {
        assert items[..i + 1][..i] == items[..i];
        IndexItemRow(items[i]);
      }
      assert items[..|items|] == items;
      count := |items|;
    }

    method RemoveBatch(ids: seq<i64>) returns (count: nat)
      modifies conn
      ensures conn.State() == RemovedAll(old(conn.State()), ids)
      ensures Current() == Runs.Step(tables, old(Current()), Runs.RemoveBatch(ids))
      ensures count == |ids|
    {
      if ids == [] { return 0; }
      for i := 0 to |ids|
        invariant conn.State() == RemovedAll(old(conn.State()), ids[..i])
      {
        assert ids[..i + 1][..i] == ids[..i];
        conn.DeleteDoc(ids[i]);
        conn.DeleteEntry(ids[i]);
      }
      assert ids[..|ids|] == ids;
      count := |ids|;
    }

    method RemoveAll() returns (count: nat)
      modifies conn
      ensures conn.State() == Emptied(old(conn.State()))
      ensures Current() == Runs.Step(tables, old(Current()), Runs.RemoveAll)
      ensures count == |old(conn.entries)|
    {
      count := |conn.entries|;
      conn.docs := map[];
      conn.entries := map[];
    }

    /** The first fault of a record's fields, found by scanning with the slots seen so far. */
    static method CheckFields(bits: nat, fields: seq<FieldValue>) returns (fault: Option<SearchError>)
      ensures fault == FieldFault(bits, fields, 0)
    {
      var slotCap := Pow2(bits);
      var seen: seq<int> := [];
      for i := 0 to |fields|
        invariant |seen| == i && forall j :: 0 <= j < i ==> seen[j] == fields[j].slot
        invariant FieldFault(bits, fields, 0) == FieldFault(bits, fields, i)
      {
        var f := fields[i];
        if f.slot >= slotCap { return Some(SlotDoesNotFit(f.slot)); }
        if f.slot in seen {
          var j :| 0 <= j < i && seen[j] == f.slot;
          assert fields[j].slot == fields[i].slot;
          return Some(DuplicateSlot(f.slot));
        }
        assert forall j :: 0 <= j < i ==> seen[j] in seen;
        seen := seen + [f.slot];
      }
      return None;
    }

    /** The loop body of `WriteRecord`: a field that is empty once normalized is dropped. */
    method WriteField(id: int, text: string)
      requires id !in conn.docs
      modifies conn
      ensures var norm := Normalized(tables, options, text);
              conn.State() == if norm == "" then old(conn.State()) else Put(old(conn.State()), id, norm, text)
    {
      var norm := NormalizeText(tables, options, text);
      if norm == "" { return; }
      conn.InsertDoc(id, norm);
      conn.ReplaceEntry(id, Row(norm, Reverse(norm), Some(text)));
    }

    /** The insertion loop of `WriteRecord`, into a cleared range. */
    method WriteFields(record: int, fields: seq<FieldValue>)
      requires FieldsFit(fieldBits, fields)
      requires forall id :: id in conn.docs ==> !(RangeLo(fieldBits, record) <= id <= RangeHi(fieldBits, record))
      modifies conn
      ensures conn.State() == FieldsPut(tables, options, old(conn.State()), RangeLo(fieldBits, record), fields)
    {
      ghost var cleared := conn.State();
      var lo := RangeLo(fieldBits, record);
      for i := 0 to |fields|
        invariant conn.State() == FieldsPut(tables, options, cleared, lo, fields[..i])
      {
        SlotIsFree(tables, options, cleared, fieldBits, record, fields, i);
        FieldsPutStep(tables, options, cleared, lo, fields, i);
        WriteField(lo + fields[i].slot, fields[i].text);
      }
      assert fields[..|fields|] == fields;
    }

    /** Clears the record's range, then inserts its non-empty fields. */
    method WriteRecord(item: RecordIndexItem)
      requires ValidBits(fieldBits) && RecordFault(fieldBits, item).None?
      modifies conn
      ensures conn.State() == RecordPut(tables, options, old(conn.State()), fieldBits, item)
    {
      RecordAccepted(fieldBits, item);
      conn.ClearIdRange(RangeLo(fieldBits, item.recordId), RangeHi(fieldBits, item.recordId));
      WriteFields(item.recordId, item.fields);
    }

    /** Replaces a whole record, or reports the first fault and writes nothing. */
    method IndexRecord(item: RecordIndexItem) returns (r: Result<(), SearchError>)
      requires ValidBits(fieldBits)
      modifies conn
      ensures match RecordFault(fieldBits, item)
              case Some(e) => r == Err(e) && conn.State() == old(conn.State())
              case None => r == Ok(()) && conn.State() == RecordPut(tables, options, old(conn.State()), fieldBits, item)
      ensures Current() == Runs.Step(tables, old(Current()), Runs.IndexRecord(item))
    {
      if !(0 <= item.recordId <= MaxRecordId(fieldBits)) { return Err(RecordOutOfRange(item.recordId)); }
      var fault := CheckFields(fieldBits, item.fields);
      if fault.Some? { return Err(fault.value); }
      WriteRecord(item);
      return Ok(());
    }

    /** All records or none: everything is checked before anything is written. */
    method IndexRecordsBatch(items: seq<RecordIndexItem>) returns (r: Result<nat, SearchError>)
      requires ValidBits(fieldBits)
      modifies conn
      ensures match RecordsFault(fieldBits, items, 0)
              case Some(e) => r == Err(e) && conn.State() == old(conn.State())
              case None =>
                r == Ok(|items|) && conn.State() == RecordsPut(tables, options, old(conn.State()), fieldBits, items)
      ensures Current() == Runs.Step(tables, old(Current()), Runs.IndexRecordsBatch(items))
    {
      if items == [] { return Ok(0); }
      for i := 0 to |items|
        invariant conn.State() == old(conn.State())
        invariant RecordsFault(fieldBits, items, 0) == RecordsFault(fieldBits, items, i)
      {
        if !(0 <= items[i].recordId <= MaxRecordId(fieldBits)) { return Err(RecordOutOfRange(items[i].recordId)); }
        var fault := CheckFields(fieldBits, items[i].fields);
        if fault.Some? { return Err(fault.value); }
      }
      RecordsAccepted(fieldBits, items, 0);
      for i := 0 to |items|
        invariant conn.State() == RecordsPut(tables, options, old(conn.State()), fieldBits, items[..i])
      {
        assert items[..i + 1][..i] == items[..i];
        WriteRecord(items[i]);
      }
      assert items[..|items|] == items;
      return Ok(|items|);
    }

    method RemoveRecord(recordId: i64) returns (r: Result<(), SearchError>)
      modifies conn
      ensures if ValidRecord(fieldBits, recordId)
              then r == Ok(()) && conn.State() ==
                  ClearedRange(old(conn.State()), RangeLo(fieldBits, recordId), RangeHi(fieldBits, recordId))
              else r == Err(RecordOutOfRange(recordId)) && conn.State() == old(conn.State())
      ensures Current() == Runs.Step(tables, old(Current()), Runs.RemoveRecord(recordId))
    {
      if !(0 <= recordId <= MaxRecordId(fieldBits)) { return Err(RecordOutOfRange(recordId)); }
      conn.ClearIdRange(RangeLo(fieldBits, recordId), RangeHi(fieldBits, recordId));
      return Ok(());
    }

    /** Reads every row, in whatever order the table yields them. */
    method LoadRows() returns (rows: seq<StoredRow>)
      ensures Lists(rows, conn.State(), conn.entries.Keys)
      ensures |rows| == |conn.entries|
    {
      rows := [];
      var rest := conn.entries.Keys;
      ghost var all := conn.entries.Keys;
      while rest != {}
        invariant rest <= all && all == conn.entries.Keys
        invariant Lists(rows, conn.State(), all - rest)
        invariant |rows| + |rest| == |all|
        decreases rest
      {
        assert (forall x: int :: x !in rest) ==> rest == {};
        var id :| id in rest;
        ListsOneMore(rows, conn.State(), all - rest, id);
        rows := rows + [StoredRow(id, conn.entries[id].norm, conn.entries[id].raw)];
        assert all - rest + {id} == all - (rest - {id});
        rest := rest - {id};
      }
      assert all - {} == all;
    }

    /** Checks and re-packs the ids in place; the first id that does not fit stops it. */
    static method RepackRows(rows: seq<StoredRow>, from: nat, to: nat)
      returns (r: Result<seq<StoredRow>, SearchError>)
      ensures r.Ok? ==> Moved(r.value, rows, from, to)
      ensures r.Err? ==>
                exists i :: 0 <= i < |rows| && !Fits(from, to, rows[i].id) && r == Err(IdDoesNotFit(rows[i].id))
    {
      var moved := rows;
      for i := 0 to |rows|
        invariant |moved| == |rows|
        invariant forall k :: 0 <= k < i ==>
          Fits(from, to, rows[k].id) && moved[k] == rows[k].(id := Repack(from, to, rows[k].id))
        invariant forall k :: i <= k < |rows| ==> moved[k] == rows[k]
      {
        var id := moved[i].id;
        if id < 0 { return Err(IdDoesNotFit(id)); }
        var record, slot := RecordOf(from, id), LowBits(from, id);
        if slot >= Pow2(to) { return Err(IdDoesNotFit(id)); }
        if record > MaxRecordId(to) { return Err(IdDoesNotFit(id)); }
        moved := moved[i := moved[i].(id := Pack(to, record, slot))];
      }
      return Ok(moved);
    }

    /** Writes the rows into empty tables. */
    method StoreRows(rows: seq<StoredRow>)
      requires DistinctIds(rows) && conn.docs == map[] && conn.entries == map[]
      modifies conn
      ensures conn.profile == old(conn.profile) && conn.bits == old(conn.bits)
      ensures Holds(conn.docs, conn.entries, rows)
    {
      for i := 0 to |rows|
        invariant conn.profile == old(conn.profile) && conn.bits == old(conn.bits)
        invariant Holds(conn.docs, conn.entries, rows[..i])
      {
        var row := rows[i];
        HoldsOneMore(conn.docs, conn.entries, rows, i);
        conn.InsertDoc(row.id, row.norm);
        conn.ReplaceEntry(row.id, Row(row.norm, Reverse(row.norm), row.raw));
      }
      assert rows[..|rows|] == rows;
    }

    /** Re-encodes every id under another number of field bits: all of them, or none. */
    method ChangeFieldBits(newBits: byte) returns (r: Result<nat, SearchError>)
      requires ValidBits(fieldBits)
      modifies conn, this`fieldBits
      ensures !ValidBits(newBits) ==> r == Err(InvalidFieldBits(newBits))
      ensures newBits == old(fieldBits) ==> r == Ok(0)
      ensures ValidBits(newBits) && newBits != old(fieldBits) ==>
                if AllFit(old(conn.State()), old(fieldBits), newBits)
                then r == Ok(|old(conn.entries)|) && fieldBits == newBits
                     && conn.State() == Repacked(old(conn.State()), old(fieldBits), newBits)
                else exists id ::
                  id in old(conn.entries) && !Fits(old(fieldBits), newBits, id) && r == Err(IdDoesNotFit(id))
      ensures r.Err? || newBits == old(fieldBits) ==> fieldBits == old(fieldBits) && conn.State() == old(conn.State())
      ensures Current() == Runs.Step(tables, old(Current()), Runs.ChangeFieldBits(newBits))
    {
      if !ValidBits(newBits) { return Err(InvalidFieldBits(newBits)); }
      var oldBits := fieldBits;
      if newBits == oldBits { return Ok(0); }
      var rows := LoadRows();
      var moved := RepackRows(rows, oldBits, newBits);
      if moved.Err? { return Err(moved.error); }
      ReplaceRows(rows, moved.value, oldBits, newBits);
      fieldBits := newBits;
      return Ok(|rows|);
    }

    /** The transaction of `ChangeFieldBits`: empty the tables, store the moved rows, stamp. */
    method ReplaceRows(ghost rows: seq<StoredRow>, moved: seq<StoredRow>, ghost oldBits: nat, newBits: byte)
      requires ValidBits(oldBits) && ValidBits(newBits)
      requires Lists(rows, conn.State(), conn.entries.Keys) && Moved(moved, rows, oldBits, newBits)
      modifies conn
      ensures AllFit(old(conn.State()), oldBits, newBits)
      ensures conn.State() == Repacked(old(conn.State()), oldBits, newBits)
    {
      MovedAreDistinct(moved, rows, oldBits, newBits);
      conn.docs := map[];
      conn.entries := map[];
      StoreRows(moved);
      MovedIsRepacked(old(conn.State()), rows, moved, oldBits, newBits, conn.docs, conn.entries);
      conn.StampFieldBits(newBits);
    }

    // -------------------------------------------------------------------------
    // Searching
    // -------------------------------------------------------------------------

    /** The columns a search reads. */
    function Columns(): Tables
      reads conn
    {
      Tables(conn.docs, Norms(conn.State()), NormRevs(conn.State()))
    }

    lemma ColumnsInSync()
      requires Agree(conn.State())
      ensures InSync(Columns())
    {
      AgreeInSync(conn.State());
    }

    /** The query's normal form, answered by the engine's strategy; an empty one finds nothing. */
    method Search(query: string, limit: u32) returns (hits: seq<Hit>)
      requires Agree(conn.State())
      ensures var q := Normalized(tables, options, query);
              if q == "" then hits == [] else Answers(hits, strategy, tables.ftsFold, Norms(conn.State()), q, limit, 0)
    {
      var q := NormalizeText(tables, options, query);
      if q == "" { return []; }
      ColumnsInSync();
      hits := Strategies.Search(strategy, tables.ftsFold, Columns(), q, limit);
    }

    /** Page `page` of `perPage` hits. */
    method SearchPage(query: string, perPage: u32, page: u32) returns (r: Result<seq<Hit>, SearchError>)
      requires Agree(conn.State())
      ensures var q := Normalized(tables, options, query);
              && (q == "" ==> r == Ok([]))
              && (q != "" ==> (r.Err? <==> PageOverflows(strategy, page, perPage)))
              && (r.Err? ==> r == Err(Overflow))
              && (q != "" && r.Ok? ==>
                    Answers(r.value, strategy, tables.ftsFold, Norms(conn.State()), q, perPage, Offset(page, perPage)))
    {
      var q := NormalizeText(tables, options, query);
      if q == "" { return Ok([]); }
      if Offset(page, perPage) > U32_MAX { return Err(Overflow); }
      ColumnsInSync();
      var hits := Strategies.SearchPaged(strategy, tables.ftsFold, Columns(), q, perPage, Offset(page, perPage));
      return if hits.None? then Err(Overflow) else Ok(hits.value);
    }

    method MatchCount(query: string) returns (n: nat)
      requires Agree(conn.State())
      ensures var q := Normalized(tables, options, query);
              && (q == "" ==> n == 0)
              && (q != "" && strategy.IsRanked() ==>
                  n == Min(|Hits(strategy.ScorerFor(q), Norms(conn.State()))|, U32_MAX))
              && (q != "" && !strategy.IsRanked() ==>
                  n == |SelectedIds(strategy, tables.ftsFold, Norms(conn.State()), q)|)
    {
      var q := NormalizeText(tables, options, query);
      if q == "" { return 0; }
      ColumnsInSync();
      n := Strategies.MatchCount(strategy, tables.ftsFold, Columns(), q);
    }

    /** What a record search reads. */
    function Records(): RecordView
      reads this, conn
    {
      RecordView(strategy, tables.ftsFold, Norms(conn.State()), fieldBits)
    }

    /** Over-fetches field hits, collapses them to records, keeps the best `limit`. */
    method SearchRecords(query: string, limit: u32, fieldsPerRecord: u32) returns (out: seq<RecordHit>)
      requires Agree(conn.State())
      ensures Records().Finds(out, Normalized(tables, options, query), limit, fieldsPerRecord)
    {
      var q := NormalizeText(tables, options, query);
      if q == "" { return []; }
      ColumnsInSync();
      var hits := Strategies.Search(strategy, tables.ftsFold, Columns(), q, RawLimit(limit, fieldsPerRecord));
      out := CollapseHits(hits, fieldBits, limit);
      assert RecordAnswer(out, hits, fieldBits, limit);
    }

    /** Page `page` of `perPage` records: the front of the answer is fetched, split at the offset and truncated. */
    method SearchRecordsPage(query: string, perPage: u32, page: u32, fieldsPerRecord: u32)
      returns (r: Result<seq<RecordHit>, SearchError>, ghost all: seq<RecordHit>)
      requires Agree(conn.State())
      ensures var offset, q := Offset(page, perPage), Normalized(tables, options, query);
              if offset + perPage > U32_MAX then r == Err(Overflow)
              else Records().Finds(all, q, offset + perPage, fieldsPerRecord) && r == Ok(Slice(all, offset, perPage))
    {
      hide RecordAnswer;
      all := [];
      var offset := Offset(page, perPage);
      if offset > U32_MAX { return Err(Overflow), []; }
      if offset + perPage > U32_MAX { return Err(Overflow), []; }
      var fetched := SearchRecords(query, offset + perPage, fieldsPerRecord);
      var skip := if offset < |fetched| then offset else |fetched|;
      var records := fetched[skip..];
      if perPage < |records| { records := records[..perPage]; }
      return Ok(records), fetched;
    }

    /** The number of different records among the hits of an answer, which is all of them below `u32::MAX`. */
    method MatchCountRecords(query: string) returns (n: nat)
      requires Agree(conn.State())
      ensures var q := Normalized(tables, options, query);
              if q == "" then n == 0 else CountsRecords(n, strategy, tables.ftsFold, Norms(conn.State()), q, fieldBits)
    {
      var q := NormalizeText(tables, options, query);
      if q == "" { return 0; }
      ColumnsInSync();
      var hits := Strategies.Search(strategy, tables.ftsFold, Columns(), q, U32_MAX);
      var seen := {};
      for i := 0 to |hits|
        invariant seen == RecordsOf(Elements(hits[..i]), fieldBits)
      {
        RecordsOfSnoc(hits, i, fieldBits);
        seen := seen + {RecordOf(fieldBits, hits[i].id)};
      }
      assert hits[..|hits|] == hits;
      n := |seen|;
    }

    // -------------------------------------------------------------------------
    // Highlighting
    // -------------------------------------------------------------------------

    /** `marked` is the raw text with one marker pair per match, around exactly the characters the matches came from. */
    ghost predicate MarksMatches(marked: string, raw: string, norm: string, q: string, before: string, after: string)
      requires q != ""
    {
      exists spans :: Highlight.HighlightedAt(spans, marked, raw, norm, q, before, after, Normalizer(tables, options))
    }

    /** The row's own text with the matches marked; nothing for an unknown id or an empty query. */
    ghost predicate HighlightsRow(r: Option<string>, q: string, id: int, before: string, after: string)
      reads conn
    {
      && (r.None? <==> q == "" || id !in conn.entries)
      && (r.Some? && conn.entries[id].raw.Some? ==>
            MarksMatches(r.value, conn.entries[id].raw.value, conn.entries[id].norm, q, before, after))
      && (r.Some? && conn.entries[id].raw.None? ==>
            var spans := Highlight.MatchSpans(Highlight.MatchesFrom(conn.entries[id].norm, q, 0), |q|);
            Highlight.Ordered(spans, |conn.entries[id].norm|)
            && r.value == Highlight.Marked(conn.entries[id].norm, spans, before, after))
    }

    method HighlightText(query: string, id: i64, before: string, after: string) returns (r: Option<string>)
      ensures HighlightsRow(r, Normalized(tables, options, query), id, before, after)
    {
      var q := NormalizeText(tables, options, query);
      if q == "" { return None; }
      if id !in conn.entries { return None; }
      var row := conn.entries[id];
      if row.raw.Some? {
        var marked := Highlight.HighlightRaw(row.raw.value, row.norm, q, before, after, Normalizer(tables, options));
        return Some(marked);
      } else {
        var marked := Highlight.HighlightOccurrences(row.norm, q, before, after);
        return Some(marked);
      }
    }

    /** The same for a field of a record, after checking that record and slot exist in this encoding. */
    method HighlightRecord(query: string, recordId: i64, slot: byte, before: string, after: string)
      returns (r: Result<Option<string>, SearchError>)
      requires ValidBits(fieldBits)
      ensures if !ValidRecord(fieldBits, recordId) then r == Err(RecordOutOfRange(recordId))
              else if slot >= Pow2(fieldBits) then r == Err(SlotDoesNotFit(slot))
              else r.Ok? && HighlightsRow(r.value, Normalized(tables, options, query), Pack(fieldBits, recordId, slot),
                  before, after)
    {
      if !(0 <= recordId <= MaxRecordId(fieldBits)) { return Err(RecordOutOfRange(recordId)); }
      if slot >= Pow2(fieldBits) { return Err(SlotDoesNotFit(slot)); }
      PackInRange(fieldBits, recordId, slot);
      var marked := HighlightText(query, Pack(fieldBits, recordId, slot), before, after);
      return Ok(marked);
    }
  }
}
