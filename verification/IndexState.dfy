/** What each call does to the stored index, as a function of the index before the call. */
module IndexState {
  import opened Wrappers
  import opened Text
  import opened Config
  import opened Normalize
  import opened Packing

  /** A row of `entries`; rows from before raw text was retained have none. */
  datatype Row = Row(norm: string, normRev: string, raw: Option<string>)

  /** The two tables and the stamps of the `meta` table. */
  datatype Store = Store(
    docs: map<int, string>,
    entries: map<int, Row>,
    profile: Option<string>,
    bits: Option<nat>)

  datatype IndexItem = IndexItem(id: i64, text: string)

  /** A field of a record; slots are 8-bit. */
  datatype FieldValue = FieldValue(slot: byte, text: string)

  datatype RecordIndexItem = RecordIndexItem(recordId: i64, fields: seq<FieldValue>)

  datatype SearchError =
    | InvalidFieldBits(requestedBits: int)
    | FieldBitsMismatch(storedBits: nat, wantedBits: nat)
    | ConfigMismatch(stored: string, requested: string)
    | RecordOutOfRange(recordId: int)
    | SlotDoesNotFit(slot: int)
    | DuplicateSlot(duplicate: int)
    | IdDoesNotFit(id: int)
    | Overflow

  // ---------------------------------------------------------------------------
  // The tables
  // ---------------------------------------------------------------------------

  /** Both tables hold the same ids with the same text, and the reversed column is the reversed text. */
  ghost predicate Agree(s: Store) {
    && s.docs.Keys == s.entries.Keys
    && forall id :: id in s.entries ==>
        s.docs[id] == s.entries[id].norm && s.entries[id].normRev == Reverse(s.entries[id].norm)
  }

  function Norms(s: Store): map<int, string> {
    map id | id in s.entries :: s.entries[id].norm
  }

  function NormRevs(s: Store): map<int, string> {
    map id | id in s.entries :: s.entries[id].normRev
  }

  // ---------------------------------------------------------------------------
  // Stamps
  // ---------------------------------------------------------------------------

  /** The profile of a non-empty index; a missing stamp means the index predates stamping. */
  function StoredProfile(s: Store): Option<string> {
    if s.entries == map[] then None
    else if s.profile.Some? then s.profile else Some("loose")
  }

  function StoredBits(s: Store): Option<nat> {
    if s.entries == map[] then None
    else if s.bits.Some? then s.bits else Some(DEFAULT_FIELD_BITS)
  }

  // ---------------------------------------------------------------------------
  // Plain documents
  // ---------------------------------------------------------------------------

  function MakeRow(norm: string, raw: string): Row {
    Row(norm, Reverse(norm), Some(raw))
  }

  function Put(s: Store, id: int, norm: string, raw: string): Store {
    s.(docs := s.docs[id := norm], entries := s.entries[id := MakeRow(norm, raw)])
  }

  function Indexed(t: UnicodeTables, o: NormalizeOptions, s: Store, id: int, text: string): Store {
    Put(s, id, Normalized(t, o, text), text)
  }

  function IndexedAll(t: UnicodeTables, o: NormalizeOptions, s: Store, items: seq<IndexItem>): Store {
    if items == [] then s
    else
      var last := items[|items| - 1];
      Indexed(t, o, IndexedAll(t, o, s, items[..|items| - 1]), last.id, last.text)
  }

  function Removed(s: Store, id: int): Store {
    s.(docs := s.docs - {id}, entries := s.entries - {id})
  }

  function RemovedAll(s: Store, ids: seq<int>): Store {
    if ids == [] then s else Removed(RemovedAll(s, ids[..|ids| - 1]), ids[|ids| - 1])
  }

  function Emptied(s: Store): Store {
    s.(docs := map[], entries := map[])
  }

  // ---------------------------------------------------------------------------
  // Regeneration
  // ---------------------------------------------------------------------------

  function RawIds(s: Store): set<int> {
    set id | id in s.entries && s.entries[id].raw.Some?
  }

  function Renormalized(t: UnicodeTables, o: NormalizeOptions, row: Row): Row {
    if row.raw.None? then row else MakeRow(Normalized(t, o, row.raw.value), row.raw.value)
  }

  predicate HasRaw(s: Store, id: int) {
    id in s.entries && s.entries[id].raw.Some?
  }

  /** One row normalized afresh from its raw text. */
  function Regenerated(t: UnicodeTables, o: NormalizeOptions, s: Store, id: int): Store
    requires HasRaw(s, id)
  {
    var raw := s.entries[id].raw.value;
    var norm := Normalized(t, o, raw);
    s.(docs := s.docs[id := norm], entries := s.entries[id := MakeRow(norm, raw)])
  }

  /** The rows `ids` normalized afresh. */
  function ReindexedRows(t: UnicodeTables, o: NormalizeOptions, s: Store, ids: set<int>): Store
    requires ids <= RawIds(s)
  {
    s.(docs := map id | id in s.docs.Keys + ids ::
                 if id in ids then Normalized(t, o, s.entries[id].raw.value) else s.docs[id],
       entries := map id | id in s.entries ::
                 if id in ids then Renormalized(t, o, s.entries[id]) else s.entries[id])
  }

  /** Every row with raw text is normalized afresh; the others stay. */
  function Reindexed(t: UnicodeTables, o: NormalizeOptions, s: Store): Store {
    ReindexedRows(t, o, s, RawIds(s)).(profile := Some(FingerprintKey(o)))
  }

  lemma ReindexedNone(t: UnicodeTables, o: NormalizeOptions, s: Store)
    ensures ReindexedRows(t, o, s, {}) == s
  {
    assert ReindexedRows(t, o, s, {}).docs == s.docs;
    assert ReindexedRows(t, o, s, {}).entries == s.entries;
  }

  lemma ReindexedOneMore(t: UnicodeTables, o: NormalizeOptions, s: Store, ids: set<int>, id: int)
    requires ids <= RawIds(s) && id in RawIds(s)
    ensures HasRaw(ReindexedRows(t, o, s, ids), id)
    ensures Regenerated(t, o, ReindexedRows(t, o, s, ids), id) == ReindexedRows(t, o, s, ids + {id})
  {
    var before, after := ReindexedRows(t, o, s, ids), ReindexedRows(t, o, s, ids + {id});
    var norm := Normalized(t, o, s.entries[id].raw.value);
    assert after.docs == before.docs[id := norm];
    assert after.entries == before.entries[id := MakeRow(norm, s.entries[id].raw.value)];
  }

  // ---------------------------------------------------------------------------
  // Records
  // ---------------------------------------------------------------------------

  function ClearedRange(s: Store, lo: int, hi: int): Store {
    s.(docs := map id | id in s.docs && !(lo <= id <= hi) :: s.docs[id],
       entries := map id | id in s.entries && !(lo <= id <= hi) :: s.entries[id])
  }

  /** Stores the fields that are not empty once normalized. */
  function FieldsPut(t: UnicodeTables, o: NormalizeOptions, s: Store, lo: int, fields: seq<FieldValue>): Store {
    if fields == [] then s
    else
      var before, f := FieldsPut(t, o, s, lo, fields[..|fields| - 1]), fields[|fields| - 1];
      var norm := Normalized(t, o, f.text);
      if norm == "" then before else Put(before, lo + f.slot, norm, f.text)
  }

  /** Only the record's own slots are written. */
  lemma {:induction false} FieldsPutKeys(t: UnicodeTables, o: NormalizeOptions, s: Store, lo: int,
                                         fields: seq<FieldValue>, id: int)
    requires id in FieldsPut(t, o, s, lo, fields).docs
    ensures id in s.docs || exists j :: 0 <= j < |fields| && id == lo + fields[j].slot
  {
    if fields != [] {
      var front, f := fields[..|fields| - 1], fields[|fields| - 1];
      if id in FieldsPut(t, o, s, lo, front).docs {
        FieldsPutKeys(t, o, s, lo, front, id);
        if id !in s.docs {
          var j :| 0 <= j < |front| && id == lo + front[j].slot;
          assert id == lo + fields[j].slot;
        }
      } else {
        assert id == lo + fields[|fields| - 1].slot;
      }
    }
  }

  lemma FieldsPutStep(t: UnicodeTables, o: NormalizeOptions, s: Store, lo: int, fields: seq<FieldValue>, i: nat)
    requires i < |fields|
    ensures var before, norm := FieldsPut(t, o, s, lo, fields[..i]), Normalized(t, o, fields[i].text);
            FieldsPut(t, o, s, lo, fields[..i + 1]) ==
              if norm == "" then before else Put(before, lo + fields[i].slot, norm, fields[i].text)
  {
    assert fields[..i + 1][..i] == fields[..i];
  }

  /** Inside a cleared range the row id of the next field is not taken, as slots are distinct. */
  lemma SlotIsFree(t: UnicodeTables, o: NormalizeOptions, cleared: Store, bits: nat, record: int,
                   fields: seq<FieldValue>, i: nat)
    requires i < |fields| && FieldsFit(bits, fields)
    requires forall id :: id in cleared.docs ==> !(RangeLo(bits, record) <= id <= RangeHi(bits, record))
    ensures RangeLo(bits, record) + fields[i].slot !in FieldsPut(t, o, cleared, RangeLo(bits, record), fields[..i]).docs
  {
    var lo := RangeLo(bits, record);
    var id := lo + fields[i].slot;
    if id in FieldsPut(t, o, cleared, lo, fields[..i]).docs {
      FieldsPutKeys(t, o, cleared, lo, fields[..i], id);
    }
  }

  function RecordPut(t: UnicodeTables, o: NormalizeOptions, s: Store, bits: nat, item: RecordIndexItem): Store {
    var lo, hi := RangeLo(bits, item.recordId), RangeHi(bits, item.recordId);
    FieldsPut(t, o, ClearedRange(s, lo, hi), lo, item.fields)
  }

  function RecordsPut(t: UnicodeTables, o: NormalizeOptions, s: Store, bits: nat, items: seq<RecordIndexItem>): Store {
    if items == [] then s
    else RecordPut(t, o, RecordsPut(t, o, s, bits, items[..|items| - 1]), bits, items[|items| - 1])
  }

  /** The first fault among the fields from the k-th on: a slot that does not fit or was used before. */
  function FieldFault(bits: nat, fields: seq<FieldValue>, k: nat): Option<SearchError>
    requires k <= |fields|
    decreases |fields| - k
  {
    if k == |fields| then None
    else if fields[k].slot >= Pow2(bits) then Some(SlotDoesNotFit(fields[k].slot))
    else if exists j :: 0 <= j < k && fields[j].slot == fields[k].slot then Some(DuplicateSlot(fields[k].slot))
    else FieldFault(bits, fields, k + 1)
  }

  function RecordFault(bits: nat, item: RecordIndexItem): Option<SearchError> {
    if !ValidRecord(bits, item.recordId) then Some(RecordOutOfRange(item.recordId))
    else FieldFault(bits, item.fields, 0)
  }

  function RecordsFault(bits: nat, items: seq<RecordIndexItem>, k: nat): Option<SearchError>
    requires k <= |items|
    decreases |items| - k
  {
    if k == |items| then None
    else if RecordFault(bits, items[k]).Some? then RecordFault(bits, items[k])
    else RecordsFault(bits, items, k + 1)
  }

  predicate FieldsFit(bits: nat, fields: seq<FieldValue>) {
    && (forall i :: 0 <= i < |fields| ==> fields[i].slot < Pow2(bits))
    && (forall i, j :: 0 <= i < j < |fields| ==> fields[i].slot != fields[j].slot)
  }

  /** No fault is reported exactly when all slots fit and no two are equal. */
  lemma {:induction false} NoFieldFault(bits: nat, fields: seq<FieldValue>, k: nat)
    requires k <= |fields|
    ensures FieldFault(bits, fields, k).None? <==>
              forall i :: k <= i < |fields| ==>
                fields[i].slot < Pow2(bits) && forall j :: 0 <= j < i ==> fields[j].slot != fields[i].slot
    decreases |fields| - k
  {
    if k < |fields| { NoFieldFault(bits, fields, k + 1); }
  }

  lemma RecordAccepted(bits: nat, item: RecordIndexItem)
    ensures RecordFault(bits, item).None? <==> ValidRecord(bits, item.recordId) && FieldsFit(bits, item.fields)
  {
    NoFieldFault(bits, item.fields, 0);
  }

  lemma {:induction false} RecordsAccepted(bits: nat, items: seq<RecordIndexItem>, k: nat)
    requires k <= |items|
    ensures RecordsFault(bits, items, k).None? <==> forall i :: k <= i < |items| ==> RecordFault(bits, items[i]).None?
    decreases |items| - k
  {
    if k < |items| { RecordsAccepted(bits, items, k + 1); }
  }

  // ---------------------------------------------------------------------------
  // Changing the number of field bits
  // ---------------------------------------------------------------------------

  function RepackedIds(s: Store, from: nat, to: nat): set<int> {
    set id | id in s.entries :: Repack(from, to, id)
  }

  predicate AllFit(s: Store, from: nat, to: nat) {
    forall id :: id in s.entries ==> Fits(from, to, id)
  }

  /** The rows under their new ids. Reading a new id back is re-packing it the other way. */
  function Repacked(s: Store, from: nat, to: nat): Store
    requires ValidBits(from) && ValidBits(to) && AllFit(s, from, to)
  {
    RepackedBack(s, from, to);
    var rows := map id | id in RepackedIds(s, from, to) :: s.entries[Repack(to, from, id)];
    Store(map id | id in rows :: rows[id].norm,
          map id | id in rows :: Row(rows[id].norm, Reverse(rows[id].norm), rows[id].raw),
          s.profile,
          Some(to))
  }

  lemma RepackedBack(s: Store, from: nat, to: nat)
    requires ValidBits(from) && ValidBits(to) && AllFit(s, from, to)
    ensures forall id :: id in RepackedIds(s, from, to) ==>
              Repack(to, from, id) in s.entries && Repack(from, to, Repack(to, from, id)) == id
  {
    forall id | id in RepackedIds(s, from, to)
      ensures Repack(to, from, id) in s.entries && Repack(from, to, Repack(to, from, id)) == id
    {
      var source :| source in s.entries && Repack(from, to, source) == id;
      RepackFaithful(from, to, source);
    }
  }

  /** A row as it is loaded for re-packing. */
  datatype StoredRow = StoredRow(id: int, norm: string, raw: Option<string>)

  ghost predicate DistinctIds(rows: seq<StoredRow>) {
    forall i, j :: 0 <= i < j < |rows| ==> rows[i].id != rows[j].id
  }

  function RowIds(rows: seq<StoredRow>): set<int> {
    set r | r in rows :: r.id
  }

  lemma RowIdsSnoc(rows: seq<StoredRow>, row: StoredRow)
    ensures RowIds(rows + [row]) == RowIds(rows) + {row.id}
  {
    assert forall r :: r in rows + [row] <==> r in rows || r == row;
  }

  /** `rows` lists the rows with ids in `ids`, each once. */
  ghost predicate Lists(rows: seq<StoredRow>, s: Store, ids: set<int>) {
    && DistinctIds(rows)
    && RowIds(rows) == ids
    && (forall r :: r in rows ==> r.id in s.entries && r.norm == s.entries[r.id].norm && r.raw == s.entries[r.id].raw)
  }

  lemma ListsOneMore(rows: seq<StoredRow>, s: Store, ids: set<int>, id: int)
    requires Lists(rows, s, ids) && id in s.entries && id !in ids
    ensures Lists(rows + [StoredRow(id, s.entries[id].norm, s.entries[id].raw)], s, ids + {id})
  {
    var row := StoredRow(id, s.entries[id].norm, s.entries[id].raw);
    RowIdsSnoc(rows, row);
    assert forall i :: 0 <= i < |rows| ==> rows[i].id in RowIds(rows);
  }

  /** `moved` is `rows` with every id re-packed. */
  ghost predicate Moved(moved: seq<StoredRow>, rows: seq<StoredRow>, from: nat, to: nat) {
    |moved| == |rows| && forall i :: 0 <= i < |rows| ==>
      Fits(from, to, rows[i].id) && moved[i] == rows[i].(id := Repack(from, to, rows[i].id))
  }

  lemma MovedAreDistinct(moved: seq<StoredRow>, rows: seq<StoredRow>, from: nat, to: nat)
    requires Moved(moved, rows, from, to) && DistinctIds(rows)
    ensures DistinctIds(moved)
  {
    forall i, j | 0 <= i < j < |moved| ensures moved[i].id != moved[j].id {
      RepackOrder(from, to, rows[i].id, rows[j].id);
      RepackOrder(from, to, rows[j].id, rows[i].id);
    }
  }

  /** The tables that hold exactly `rows`. */
  ghost predicate Holds(docs: map<int, string>, entries: map<int, Row>, rows: seq<StoredRow>) {
    && docs.Keys == RowIds(rows)
    && entries.Keys == RowIds(rows)
    && (forall r :: r in rows ==> r.id in RowIds(rows))
    && (forall r :: r in rows ==> docs[r.id] == r.norm && entries[r.id] == Row(r.norm, Reverse(r.norm), r.raw))
  }

  lemma HoldsOneMore(docs: map<int, string>, entries: map<int, Row>, rows: seq<StoredRow>, i: nat)
    requires i < |rows| && DistinctIds(rows) && Holds(docs, entries, rows[..i])
    ensures rows[i].id !in docs && rows[i].id !in entries
    ensures Holds(docs[rows[i].id := rows[i].norm],
                  entries[rows[i].id := Row(rows[i].norm, Reverse(rows[i].norm), rows[i].raw)], rows[..i + 1])
  {
    assert rows[..i + 1] == rows[..i] + [rows[i]];
    assert forall k :: 0 <= k < i ==> rows[..i][k].id != rows[i].id;
    HoldsSnoc(docs, entries, rows[..i], rows[i]);
  }

  lemma HoldsSnoc(docs: map<int, string>, entries: map<int, Row>, rows: seq<StoredRow>, row: StoredRow)
    requires Holds(docs, entries, rows) && row.id !in RowIds(rows)
    ensures Holds(docs[row.id := row.norm], entries[row.id := Row(row.norm, Reverse(row.norm), row.raw)], rows + [row])
  {
    RowIdsSnoc(rows, row);
    assert forall r :: r in rows + [row] <==> r in rows || r == row;
  }

  lemma MovedIds(s: Store, rows: seq<StoredRow>, moved: seq<StoredRow>, from: nat, to: nat)
    requires Lists(rows, s, s.entries.Keys) && Moved(moved, rows, from, to)
    ensures AllFit(s, from, to) && RowIds(moved) == RepackedIds(s, from, to)
  {
    forall id | id in s.entries ensures Fits(from, to, id) && Repack(from, to, id) in RowIds(moved) {
      assert id in RowIds(rows);
      var r :| r in rows && r.id == id;
      var i :| 0 <= i < |rows| && rows[i] == r;
      assert moved[i] in moved;
    }
    forall id | id in RowIds(moved) ensures id in RepackedIds(s, from, to) {
      var m :| m in moved && m.id == id;
      var i :| 0 <= i < |moved| && moved[i] == m;
      assert rows[i] in rows;
    }
  }

  /** Reading a re-packed row back through `Repacked`. */
  lemma MovedRow(s: Store, row: StoredRow, from: nat, to: nat)
    requires ValidBits(from) && ValidBits(to) && AllFit(s, from, to)
    requires row.id in s.entries && row.norm == s.entries[row.id].norm && row.raw == s.entries[row.id].raw
    ensures var id := Repack(from, to, row.id);
            && id in Repacked(s, from, to).docs && id in Repacked(s, from, to).entries
            && Repacked(s, from, to).docs[id] == row.norm
            && Repacked(s, from, to).entries[id] == Row(row.norm, Reverse(row.norm), row.raw)
  {
    RepackFaithful(from, to, row.id);
  }

  lemma RepackedKeys(s: Store, from: nat, to: nat)
    requires ValidBits(from) && ValidBits(to) && AllFit(s, from, to)
    ensures Repacked(s, from, to).docs.Keys == RepackedIds(s, from, to)
    ensures Repacked(s, from, to).entries.Keys == RepackedIds(s, from, to)
  {
    RepackedBack(s, from, to);
  }

  lemma MovedAt(s: Store, rows: seq<StoredRow>, moved: seq<StoredRow>, from: nat, to: nat,
                docs: map<int, string>, entries: map<int, Row>, id: int)
    requires ValidBits(from) && ValidBits(to) && AllFit(s, from, to)
    requires Lists(rows, s, s.entries.Keys) && Moved(moved, rows, from, to) && Holds(docs, entries, moved)
    requires id in RowIds(moved) && id in Repacked(s, from, to).docs && id in Repacked(s, from, to).entries
    ensures docs[id] == Repacked(s, from, to).docs[id] && entries[id] == Repacked(s, from, to).entries[id]
  {
    var m :| m in moved && m.id == id;
    var i :| 0 <= i < |moved| && moved[i] == m;
    assert rows[i] in rows;
    MovedRow(s, rows[i], from, to);
  }

  lemma SameMap<K, V>(m: map<K, V>, n: map<K, V>)
    requires m.Keys == n.Keys && forall id :: id in m ==> m[id] == n[id]
    ensures m == n
  {
  }

  lemma MovedIsRepacked(s: Store, rows: seq<StoredRow>, moved: seq<StoredRow>, from: nat, to: nat,
                        docs: map<int, string>, entries: map<int, Row>)
    requires ValidBits(from) && ValidBits(to)
    requires Lists(rows, s, s.entries.Keys) && Moved(moved, rows, from, to) && Holds(docs, entries, moved)
    ensures AllFit(s, from, to)
    ensures docs == Repacked(s, from, to).docs && entries == Repacked(s, from, to).entries
  {
    MovedIds(s, rows, moved, from, to);
    RepackedKeys(s, from, to);
    var newDocs, newEntries := Repacked(s, from, to).docs, Repacked(s, from, to).entries;
    forall id | id in docs ensures docs[id] == newDocs[id] {
      MovedAt(s, rows, moved, from, to, docs, entries, id);
    }
    SameMap(docs, newDocs);
    forall id | id in entries ensures entries[id] == newEntries[id] {
      MovedAt(s, rows, moved, from, to, docs, entries, id);
    }
    SameMap(entries, newEntries);
  }

  // ---------------------------------------------------------------------------
  // Opening
  // ---------------------------------------------------------------------------

  datatype Opened = Opened(store: Store, bits: nat)

  function ResolvedBits(stored: Option<nat>, fieldBits: Option<byte>): Result<nat, SearchError> {
    match fieldBits
    case Some(n) =>
      if !ValidBits(n) then Err(InvalidFieldBits(n))
      else if stored.Some? && stored.value != n then Err(FieldBitsMismatch(stored.value, n))
      else Ok(n)
    case None => Ok(if stored.Some? then stored.value else DEFAULT_FIELD_BITS)
  }

  predicate ProfileDiffers(s: Store, o: NormalizeOptions) {
    StoredProfile(s).Some? && StoredProfile(s).value != FingerprintKey(o)
  }

  /** The whole open: resolve the field bits, compare fingerprints, stamp, regenerate if asked to. */
  function OpenedStore(t: UnicodeTables, s: Store, o: NormalizeOptions, fieldBits: Option<byte>, rebuild: bool)
    : Result<Opened, SearchError>
  {
    match ResolvedBits(StoredBits(s), fieldBits)
    case Err(e) => Err(e)
    case Ok(bits) =>
      if ProfileDiffers(s, o) && !rebuild then Err(ConfigMismatch(StoredProfile(s).value, FingerprintKey(o)))
      else
        var stamped := s.(bits := Some(bits));
        Ok(Opened(if ProfileDiffers(s, o) then Reindexed(t, o, stamped)
            else stamped.(profile := Some(FingerprintKey(o))), bits))
  }

  /**
   * Which opens are refused, and why: field bits outside 1 to 62, then field bits that differ from those of a non-empty
   * index, then other options than those it was built with, unless it is to be rebuilt. An index without stamps counts
   * as loose with eight bits.
   */
  function OpenVerdict(s: Store, key: string, fieldBits: Option<byte>, rebuild: bool): Result<nat, SearchError> {
    var bits := if s.entries != map[] && s.bits.Some? then s.bits.value else 8;
    var builtAs := if s.profile.Some? then s.profile.value else "loose";
    match fieldBits
    case Some(n) =>
      if n < 1 || n > 62 then Err(InvalidFieldBits(n))
      else if s.entries != map[] && n != bits then Err(FieldBitsMismatch(bits, n))
      else if s.entries != map[] && key != builtAs && !rebuild then Err(ConfigMismatch(builtAs, key))
      else Ok(n)
    case None =>
      if s.entries != map[] && key != builtAs && !rebuild then Err(ConfigMismatch(builtAs, key)) else Ok(bits)
  }

  lemma OpenedVerdict(t: UnicodeTables, s: Store, o: NormalizeOptions, fieldBits: Option<byte>, rebuild: bool)
    ensures var done := OpenedStore(t, s, o, fieldBits, rebuild);
            OpenVerdict(s, FingerprintKey(o), fieldBits, rebuild) ==
              if done.Ok? then Ok(done.value.bits) else Err(done.error)
  {
    hide Reindexed, FingerprintKey;
  }
}
