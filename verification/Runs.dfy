/** Whole runs of a sequential host over one index file. */
module Runs {
  import opened Wrappers
  import opened Text
  import opened Config
  import opened Normalize
  import opened Packing
  import opened IndexState

  /** The engine in use, if the last open succeeded. */
  datatype Handle = Handle(options: NormalizeOptions, bits: nat)

  datatype System = System(store: Store, engine: Option<Handle>)

  datatype Call =
    | Open(options: NormalizeOptions, fieldBits: Option<byte>, rebuild: bool)
    | Index(id: i64, text: string)
    | IndexBatch(items: seq<IndexItem>)
    | Remove(id: i64)
    | RemoveBatch(ids: seq<i64>)
    | RemoveAll
    | Reindex
    | IndexRecord(record: RecordIndexItem)
    | IndexRecordsBatch(records: seq<RecordIndexItem>)
    | RemoveRecord(recordId: i64)
    | ChangeFieldBits(newBits: byte)

  const FRESH: Store := Store(map[], map[], None, None)

  predicate CanRepack(s: Store, from: nat, to: nat) {
    ValidBits(from) && ValidBits(to) && from != to && AllFit(s, from, to)
  }

  /** One call; a rejected call leaves the store alone, a failed open leaves no engine. */
  function Step(t: UnicodeTables, sys: System, call: Call): System {
    if call.Open? then
      match OpenedStore(t, sys.store, call.options, call.fieldBits, call.rebuild) {
        case Err(_) => System(sys.store, None)
        case Ok(done) => System(done.store, Some(Handle(call.options, done.bits)))
      }
    else if sys.engine.None? then sys
    else
      var h, s := sys.engine.value, sys.store;
      match call {
        case Index(id, text) => sys.(store := Indexed(t, h.options, s, id, text))
        case IndexBatch(items) => sys.(store := IndexedAll(t, h.options, s, items))
        case Remove(id) => sys.(store := Removed(s, id))
        case RemoveBatch(ids) => sys.(store := RemovedAll(s, ids))
        case RemoveAll => sys.(store := Emptied(s))
        case Reindex => sys.(store := Reindexed(t, h.options, s))
        case IndexRecord(item) =>
          if RecordFault(h.bits, item).Some? then sys else sys.(store := RecordPut(t, h.options, s, h.bits, item))
        case IndexRecordsBatch(items) =>
          if RecordsFault(h.bits, items, 0).Some? then sys
              else sys.(store := RecordsPut(t, h.options, s, h.bits, items))
        case RemoveRecord(r) =>
          if ValidRecord(h.bits, r) then sys.(store := ClearedRange(s, RangeLo(h.bits, r), RangeHi(h.bits, r))) else sys
        case ChangeFieldBits(n) =>
          if CanRepack(s, h.bits, n) then System(Repacked(s, h.bits, n), Some(h.(bits := n))) else sys
      }
  }

  lemma StepRepack(t: UnicodeTables, s: Store, h: Handle, n: byte)
    requires CanRepack(s, h.bits, n)
    ensures Step(t, System(s, Some(h)), ChangeFieldBits(n)) == System(Repacked(s, h.bits, n), Some(h.(bits := n)))
  {
  }

  lemma StepReindex(t: UnicodeTables, s: Store, h: Handle)
    ensures Step(t, System(s, Some(h)), Reindex) == System(Reindexed(t, h.options, s), Some(h))
  {
  }

  function Run(t: UnicodeTables, sys: System, calls: seq<Call>): System {
    if calls == [] then sys else Step(t, Run(t, sys, calls[..|calls| - 1]), calls[|calls| - 1])
  }

  // ---------------------------------------------------------------------------
  // The invariant
  // ---------------------------------------------------------------------------

  /** Every row that kept its raw text holds what normalizing it under `o` gives. */
  ghost predicate NormalizedUnder(t: UnicodeTables, o: NormalizeOptions, s: Store) {
    forall id :: id in s.entries && s.entries[id].raw.Some? ==>
        s.entries[id].norm == Normalized(t, o, s.entries[id].raw.value)
  }

  ghost predicate Good(t: UnicodeTables, o: NormalizeOptions, s: Store) {
    Agree(s) && NormalizedUnder(t, o, s)
  }

  /** A stored index: consistent tables, a usable encoding, text normalized as the fingerprint says. */
  ghost predicate StoreInvariant(t: UnicodeTables, s: Store) {
    && Agree(s)
    && (s.bits.Some? ==> ValidBits(s.bits.value))
    && forall o: NormalizeOptions :: StoredProfile(s) == Some(FingerprintKey(o)) ==> NormalizedUnder(t, o, s)
  }

  /** An index in use also carries its engine's stamps. */
  ghost predicate Invariant(t: UnicodeTables, sys: System) {
    && StoreInvariant(t, sys.store)
    && (sys.engine.Some? ==>
          && ValidBits(sys.engine.value.bits)
          && sys.store.bits == Some(sys.engine.value.bits)
          && sys.store.profile == Some(FingerprintKey(sys.engine.value.options)))
  }

  lemma EngineSees(t: UnicodeTables, sys: System)
    requires Invariant(t, sys) && sys.engine.Some?
    ensures Good(t, sys.engine.value.options, sys.store)
  {
    if sys.store.entries != map[] {
      assert StoredProfile(sys.store) == Some(FingerprintKey(sys.engine.value.options));
    }
  }

  /** Consistent, stamped, normalized under the stamped options: the fingerprint leaves no other options possible. */
  lemma InvariantFrom(t: UnicodeTables, s: Store, h: Handle)
    requires Good(t, h.options, s) && ValidBits(h.bits)
    requires s.bits == Some(h.bits) && s.profile == Some(FingerprintKey(h.options))
    ensures Invariant(t, System(s, Some(h)))
  {
    forall o: NormalizeOptions | StoredProfile(s) == Some(FingerprintKey(o)) ensures NormalizedUnder(t, o, s) {
      FingerprintInjective(o, h.options);
    }
  }

  // ---------------------------------------------------------------------------
  // What every operation keeps
  // ---------------------------------------------------------------------------

  lemma PutGood(t: UnicodeTables, o: NormalizeOptions, s: Store, id: int, text: string)
    requires Good(t, o, s)
    ensures Good(t, o, Put(s, id, Normalized(t, o, text), text))
  {
  }

  lemma RemovedGood(t: UnicodeTables, o: NormalizeOptions, s: Store, id: int)
    requires Good(t, o, s)
    ensures Good(t, o, Removed(s, id))
  {
  }

  lemma ClearedGood(t: UnicodeTables, o: NormalizeOptions, s: Store, lo: int, hi: int)
    requires Good(t, o, s)
    ensures Good(t, o, ClearedRange(s, lo, hi))
  {
  }

  lemma {:induction false} IndexedAllGood(t: UnicodeTables, o: NormalizeOptions, s: Store, items: seq<IndexItem>)
    requires Good(t, o, s)
    ensures Good(t, o, IndexedAll(t, o, s, items))
    ensures SameStamps(s, IndexedAll(t, o, s, items))
  {
    if items != [] {
      var front, last := items[..|items| - 1], items[|items| - 1];
      IndexedAllGood(t, o, s, front);
      PutGood(t, o, IndexedAll(t, o, s, front), last.id, last.text);
    }
  }

  predicate SameStamps(s: Store, r: Store) {
    r.profile == s.profile && r.bits == s.bits
  }

  lemma {:induction false} RemovedAllGood(t: UnicodeTables, o: NormalizeOptions, s: Store, ids: seq<int>)
    requires Good(t, o, s)
    ensures Good(t, o, RemovedAll(s, ids))
    ensures SameStamps(s, RemovedAll(s, ids))
  {
    if ids != [] {
      RemovedAllGood(t, o, s, ids[..|ids| - 1]);
      RemovedGood(t, o, RemovedAll(s, ids[..|ids| - 1]), ids[|ids| - 1]);
    }
  }

  lemma {:induction false} FieldsPutGood(t: UnicodeTables, o: NormalizeOptions, s: Store, lo: int,
                                         fields: seq<FieldValue>)
    requires Good(t, o, s)
    ensures Good(t, o, FieldsPut(t, o, s, lo, fields))
    ensures SameStamps(s, FieldsPut(t, o, s, lo, fields))
  {
    if fields != [] {
      var front, f := fields[..|fields| - 1], fields[|fields| - 1];
      FieldsPutGood(t, o, s, lo, front);
      PutGood(t, o, FieldsPut(t, o, s, lo, front), lo + f.slot, f.text);
    }
  }

  lemma RecordPutGood(t: UnicodeTables, o: NormalizeOptions, s: Store, bits: nat, item: RecordIndexItem)
    requires Good(t, o, s)
    ensures Good(t, o, RecordPut(t, o, s, bits, item))
    ensures SameStamps(s, RecordPut(t, o, s, bits, item))
  {
    var lo, hi := RangeLo(bits, item.recordId), RangeHi(bits, item.recordId);
    ClearedGood(t, o, s, lo, hi);
    FieldsPutGood(t, o, ClearedRange(s, lo, hi), lo, item.fields);
  }

  lemma {:induction false} RecordsPutGood(t: UnicodeTables, o: NormalizeOptions, s: Store, bits: nat,
                                          items: seq<RecordIndexItem>)
    requires Good(t, o, s)
    ensures Good(t, o, RecordsPut(t, o, s, bits, items)) && SameStamps(s, RecordsPut(t, o, s, bits, items))
    decreases |items|
  {
    if items != [] {
      var last := |items| - 1;
      RecordsPutGood(t, o, s, bits, items[..last]);
      RecordPutGood(t, o, RecordsPut(t, o, s, bits, items[..last]), bits, items[last]);
    }
  }

  lemma ReindexedGood(t: UnicodeTables, o: NormalizeOptions, s: Store)
    requires Agree(s)
    ensures Good(t, o, Reindexed(t, o, s))
  {
    hide Normalized, FingerprintKey;
    assert RawIds(s) <= s.entries.Keys;
  }

  lemma RepackedGood(t: UnicodeTables, o: NormalizeOptions, s: Store, from: nat, to: nat)
    requires Good(t, o, s) && CanRepack(s, from, to)
    ensures Good(t, o, Repacked(s, from, to))
  {
    RepackedBack(s, from, to);
    RepackedKeys(s, from, to);
  }

  lemma ResolvedBitsValid(t: UnicodeTables, s: Store, fieldBits: Option<byte>)
    requires StoreInvariant(t, s) && ResolvedBits(StoredBits(s), fieldBits).Ok?
    ensures ValidBits(ResolvedBits(StoredBits(s), fieldBits).value)
  {
  }

  lemma RegeneratedKeeps(t: UnicodeTables, s: Store, o: NormalizeOptions, bits: nat)
    requires Agree(s) && ValidBits(bits)
    ensures Invariant(t, System(Reindexed(t, o, s.(bits := Some(bits))), Some(Handle(o, bits))))
  {
    var stamped := s.(bits := Some(bits));
    ReindexedGood(t, o, stamped);
    InvariantFrom(t, Reindexed(t, o, stamped), Handle(o, bits));
  }

  lemma AdoptedKeeps(t: UnicodeTables, s: Store, o: NormalizeOptions, bits: nat)
    requires StoreInvariant(t, s) && ValidBits(bits) && !ProfileDiffers(s, o)
    ensures Invariant(t, System(s.(bits := Some(bits), profile := Some(FingerprintKey(o))), Some(Handle(o, bits))))
  {
    assert s.entries == map[] || StoredProfile(s) == Some(FingerprintKey(o));
    assert NormalizedUnder(t, o, s);
    InvariantFrom(t, s.(bits := Some(bits), profile := Some(FingerprintKey(o))), Handle(o, bits));
  }

  lemma OpenKeeps(t: UnicodeTables, s: Store, o: NormalizeOptions, fieldBits: Option<byte>, rebuild: bool)
    requires StoreInvariant(t, s)
    ensures match OpenedStore(t, s, o, fieldBits, rebuild)
            case Err(_) => true
            case Ok(done) => Invariant(t, System(done.store, Some(Handle(o, done.bits))))
  {
    var bits := ResolvedBits(StoredBits(s), fieldBits);
    if bits.Ok? {
      ResolvedBitsValid(t, s, fieldBits);
      if ProfileDiffers(s, o) {
        RegeneratedKeeps(t, s, o, bits.value);
      } else {
        AdoptedKeeps(t, s, o, bits.value);
      }
    }
  }

  lemma WriteKeeps(t: UnicodeTables, sys: System, call: Call)
    requires Invariant(t, sys) && sys.engine.Some?
    requires call.Index? || call.IndexBatch? || call.Remove? || call.RemoveBatch? || call.RemoveAll? || call.Reindex?
    ensures Invariant(t, Step(t, sys, call))
  {
    hide Normalized, FingerprintKey;
    var h, s := sys.engine.value, sys.store;
    EngineSees(t, sys);
    match call {
      case Index(id, text) => PutGood(t, h.options, s, id, text);
      case IndexBatch(items) => IndexedAllGood(t, h.options, s, items);
      case Remove(id) => RemovedGood(t, h.options, s, id);
      case RemoveBatch(ids) => RemovedAllGood(t, h.options, s, ids);
      case RemoveAll =>
      case Reindex => ReindexedGood(t, h.options, s);
    }
    InvariantFrom(t, Step(t, sys, call).store, h);
  }

  lemma IndexRecordKeeps(t: UnicodeTables, sys: System, item: RecordIndexItem)
    requires Invariant(t, sys) && sys.engine.Some?
    ensures Invariant(t, Step(t, sys, IndexRecord(item)))
  {
    hide NormalizedUnder, Agree, FingerprintKey, RecordPut, RecordFault;
    var h, s := sys.engine.value, sys.store;
    EngineSees(t, sys);
    RecordPutGood(t, h.options, s, h.bits, item);
    if RecordFault(h.bits, item).None? { InvariantFrom(t, RecordPut(t, h.options, s, h.bits, item), h); }
  }

  lemma IndexRecordsBatchKeeps(t: UnicodeTables, sys: System, items: seq<RecordIndexItem>)
    requires Invariant(t, sys) && sys.engine.Some?
    ensures Invariant(t, Step(t, sys, IndexRecordsBatch(items)))
  {
    hide NormalizedUnder, Agree, FingerprintKey, RecordsPut, RecordsFault;
    var h, s := sys.engine.value, sys.store;
    EngineSees(t, sys);
    RecordsPutGood(t, h.options, s, h.bits, items);
    if RecordsFault(h.bits, items, 0).None? { InvariantFrom(t, RecordsPut(t, h.options, s, h.bits, items), h); }
  }

  lemma RemoveRecordKeeps(t: UnicodeTables, sys: System, r: i64)
    requires Invariant(t, sys) && sys.engine.Some?
    ensures Invariant(t, Step(t, sys, RemoveRecord(r)))
  {
    hide NormalizedUnder, Agree, FingerprintKey, ValidRecord;
    var h, s := sys.engine.value, sys.store;
    var cleared := ClearedRange(s, RangeLo(h.bits, r), RangeHi(h.bits, r));
    EngineSees(t, sys);
    ClearedGood(t, h.options, s, RangeLo(h.bits, r), RangeHi(h.bits, r));
    if ValidRecord(h.bits, r) { InvariantFrom(t, cleared, h); }
  }

  lemma ChangeFieldBitsKeeps(t: UnicodeTables, sys: System, n: byte)
    requires Invariant(t, sys) && sys.engine.Some?
    ensures Invariant(t, Step(t, sys, ChangeFieldBits(n)))
  {
    hide NormalizedUnder, Agree, FingerprintKey, AllFit;
    var h, s := sys.engine.value, sys.store;
    EngineSees(t, sys);
    if CanRepack(s, h.bits, n) {
      RepackedGood(t, h.options, s, h.bits, n);
      InvariantFrom(t, Repacked(s, h.bits, n), h.(bits := n));
    }
  }

  lemma StepKeeps(t: UnicodeTables, sys: System, call: Call)
    requires Invariant(t, sys)
    ensures Invariant(t, Step(t, sys, call))
  {
    hide NormalizedUnder, Agree, FingerprintKey, OpenedStore, RecordPut, RecordsPut, Reindexed, Repacked, ValidBits;
    if call.Open? {
      OpenKeeps(t, sys.store, call.options, call.fieldBits, call.rebuild);
    } else if sys.engine.Some? {
      match call {
        case IndexRecord(item) => IndexRecordKeeps(t, sys, item);
        case IndexRecordsBatch(items) => IndexRecordsBatchKeeps(t, sys, items);
        case RemoveRecord(r) => RemoveRecordKeeps(t, sys, r);
        case ChangeFieldBits(n) => ChangeFieldBitsKeeps(t, sys, n);
        case _ => WriteKeeps(t, sys, call);
      }
    }
  }

  /** The invariant holds after every run, from a fresh file or from any stored index that satisfies it. */
  lemma {:induction false} RunKeeps(t: UnicodeTables, sys: System, calls: seq<Call>)
    requires Invariant(t, sys)
    ensures Invariant(t, Run(t, sys, calls))
  {
    if calls != [] {
      RunKeeps(t, sys, calls[..|calls| - 1]);
      StepKeeps(t, Run(t, sys, calls[..|calls| - 1]), calls[|calls| - 1]);
    }
  }

  lemma FreshInvariant(t: UnicodeTables)
    ensures Invariant(t, System(FRESH, None))
  {
  }

  /**
   * In every reachable index with an engine the full-text table is the `norm` column, the reversed column mirrors
   * it, the stamps are the engine's, and every row with raw text is that text normalized under the engine's options.
   */
  lemma ReachableIndex(t: UnicodeTables, calls: seq<Call>)
    ensures var sys := Run(t, System(FRESH, None), calls);
            sys.engine.Some? ==>
              && sys.store.docs == Norms(sys.store)
              && NormRevs(sys.store).Keys == Norms(sys.store).Keys
              && (forall id :: id in Norms(sys.store) ==> NormRevs(sys.store)[id] == Reverse(Norms(sys.store)[id]))
              && sys.store.bits == Some(sys.engine.value.bits) && ValidBits(sys.engine.value.bits)
              && sys.store.profile == Some(FingerprintKey(sys.engine.value.options))
              && NormalizedUnder(t, sys.engine.value.options, sys.store)
  {
    FreshInvariant(t);
    RunKeeps(t, System(FRESH, None), calls);
    var sys := Run(t, System(FRESH, None), calls);
    if sys.engine.Some? { EngineSees(t, sys); }
    forall id | id in sys.store.docs ensures sys.store.docs[id] == Norms(sys.store)[id] {
    }
    SameMap(sys.store.docs, Norms(sys.store));
  }

  // ---------------------------------------------------------------------------
  // Ids stay within 64 bits
  // ---------------------------------------------------------------------------

  predicate IdsFit(s: Store) {
    forall id :: id in s.entries ==> IsI64(id)
  }

  lemma {:induction false} IndexedAllIds(t: UnicodeTables, o: NormalizeOptions, s: Store, items: seq<IndexItem>)
    requires IdsFit(s)
    ensures IdsFit(IndexedAll(t, o, s, items))
  {
    if items != [] { IndexedAllIds(t, o, s, items[..|items| - 1]); }
  }

  lemma {:induction false} RemovedAllIds(s: Store, ids: seq<int>)
    requires IdsFit(s)
    ensures IdsFit(RemovedAll(s, ids))
  {
    if ids != [] { RemovedAllIds(s, ids[..|ids| - 1]); }
  }

  lemma {:induction false} FieldsPutIds(t: UnicodeTables, o: NormalizeOptions, s: Store, bits: nat, record: int,
                                        fields: seq<FieldValue>)
    requires IdsFit(s) && ValidBits(bits) && ValidRecord(bits, record) && FieldsFit(bits, fields)
    ensures IdsFit(FieldsPut(t, o, s, RangeLo(bits, record), fields))
  {
    if fields != [] {
      var front, f := fields[..|fields| - 1], fields[|fields| - 1];
      assert FieldsFit(bits, front);
      FieldsPutIds(t, o, s, bits, record, front);
      PackInRange(bits, record, f.slot);
    }
  }

  lemma RecordPutIds(t: UnicodeTables, o: NormalizeOptions, s: Store, bits: nat, item: RecordIndexItem)
    requires IdsFit(s) && ValidBits(bits) && RecordFault(bits, item).None?
    ensures IdsFit(RecordPut(t, o, s, bits, item))
  {
    RecordAccepted(bits, item);
    FieldsPutIds(t, o, ClearedRange(s, RangeLo(bits, item.recordId), RangeHi(bits, item.recordId)), bits,
        item.recordId, item.fields);
  }

  lemma {:induction false} RecordsPutIds(t: UnicodeTables, o: NormalizeOptions, s: Store, bits: nat,
                                         items: seq<RecordIndexItem>)
    requires IdsFit(s) && ValidBits(bits) && RecordsFault(bits, items, 0).None?
    ensures IdsFit(RecordsPut(t, o, s, bits, items))
  {
    RecordsAccepted(bits, items, 0);
    if items != [] {
      var front := items[..|items| - 1];
      RecordsAccepted(bits, front, 0);
      RecordsPutIds(t, o, s, bits, front);
      RecordPutIds(t, o, RecordsPut(t, o, s, bits, front), bits, items[|items| - 1]);
    }
  }

  lemma RepackedIdsFit(s: Store, from: nat, to: nat)
    requires CanRepack(s, from, to)
    ensures IdsFit(Repacked(s, from, to))
  {
    RepackedKeys(s, from, to);
    forall id | id in Repacked(s, from, to).entries ensures IsI64(id) {
      var x :| x in s.entries && Repack(from, to, x) == id;
      RepackFaithful(from, to, x);
    }
  }

  lemma IndexRecordIds(t: UnicodeTables, sys: System, item: RecordIndexItem)
    requires Invariant(t, sys) && sys.engine.Some? && IdsFit(sys.store)
    ensures IdsFit(Step(t, sys, IndexRecord(item)).store)
  {
    hide IdsFit, RecordPut, RecordFault, FingerprintKey, StoreInvariant;
    var h := sys.engine.value;
    if RecordFault(h.bits, item).None? { RecordPutIds(t, h.options, sys.store, h.bits, item); }
  }

  lemma IndexRecordsBatchIds(t: UnicodeTables, sys: System, items: seq<RecordIndexItem>)
    requires Invariant(t, sys) && sys.engine.Some? && IdsFit(sys.store)
    ensures IdsFit(Step(t, sys, IndexRecordsBatch(items)).store)
  {
    hide IdsFit, RecordsPut, RecordsFault, FingerprintKey, StoreInvariant;
    var h := sys.engine.value;
    if RecordsFault(h.bits, items, 0).None? { RecordsPutIds(t, h.options, sys.store, h.bits, items); }
  }

  lemma ChangeFieldBitsIds(t: UnicodeTables, sys: System, n: byte)
    requires sys.engine.Some? && IdsFit(sys.store)
    ensures IdsFit(Step(t, sys, ChangeFieldBits(n)).store)
  {
    hide IdsFit, Repacked, AllFit;
    var h := sys.engine.value;
    if CanRepack(sys.store, h.bits, n) { RepackedIdsFit(sys.store, h.bits, n); }
  }

  lemma OpenIds(t: UnicodeTables, sys: System, o: NormalizeOptions, fieldBits: Option<byte>, rebuild: bool)
    requires IdsFit(sys.store)
    ensures IdsFit(Step(t, sys, Open(o, fieldBits, rebuild)).store)
  {
    hide Normalized, FingerprintKey;
  }

  lemma WriteIds(t: UnicodeTables, sys: System, call: Call)
    requires IdsFit(sys.store)
    requires call.Index? || call.IndexBatch? || call.Remove? || call.RemoveBatch? || call.RemoveAll? || call.Reindex?
             || call.RemoveRecord?
    ensures IdsFit(Step(t, sys, call).store)
  {
    hide Normalized, FingerprintKey, ValidRecord;
    if sys.engine.Some? {
      var h, s := sys.engine.value, sys.store;
      match call {
        case IndexBatch(items) => IndexedAllIds(t, h.options, s, items);
        case RemoveBatch(ids) => RemovedAllIds(s, ids);
        case _ =>
      }
    }
  }

  lemma StepKeepsIds(t: UnicodeTables, sys: System, call: Call)
    requires Invariant(t, sys) && IdsFit(sys.store)
    ensures IdsFit(Step(t, sys, call).store)
  {
    hide IdsFit, Invariant, OpenedStore, RecordPut, RecordsPut, Reindexed, Repacked, CanRepack;
    if call.Open? {
      OpenIds(t, sys, call.options, call.fieldBits, call.rebuild);
    } else if sys.engine.Some? {
      match call {
        case IndexRecord(item) => IndexRecordIds(t, sys, item);
        case IndexRecordsBatch(items) => IndexRecordsBatchIds(t, sys, items);
        case ChangeFieldBits(n) => ChangeFieldBitsIds(t, sys, n);
        case _ => WriteIds(t, sys, call);
      }
    }
  }

  /** In every run, packed ids included, every stored id is a 64-bit number. */
  lemma {:induction false} RunKeepsIds(t: UnicodeTables, sys: System, calls: seq<Call>)
    requires Invariant(t, sys) && IdsFit(sys.store)
    ensures IdsFit(Run(t, sys, calls).store)
  {
    if calls != [] {
      var front := calls[..|calls| - 1];
      RunKeepsIds(t, sys, front);
      RunKeeps(t, sys, front);
      StepKeepsIds(t, Run(t, sys, front), calls[|calls| - 1]);
    }
  }

  // ---------------------------------------------------------------------------
  // Opening with a rebuild equals replaying the calls
  // ---------------------------------------------------------------------------

  /** The fields that are empty once normalized under `o` are those that are under `p`. */
  predicate SameFieldsStored(t: UnicodeTables, o: NormalizeOptions, p: NormalizeOptions, fields: seq<FieldValue>) {
    forall i :: 0 <= i < |fields| ==>
        (Normalized(t, o, fields[i].text) == "" <==> Normalized(t, p, fields[i].text) == "")
  }

  /** Calls that store the same raw texts under both choices of options. */
  predicate Replayable(t: UnicodeTables, o: NormalizeOptions, p: NormalizeOptions, call: Call) {
    match call
    case Open(_, _, _) => false
    case ChangeFieldBits(_) => false
    case IndexRecord(item) => SameFieldsStored(t, o, p, item.fields)
    case IndexRecordsBatch(items) => forall i :: 0 <= i < |items| ==> SameFieldsStored(t, o, p, items[i].fields)
    case _ => true
  }

  predicate AllReplayable(t: UnicodeTables, o: NormalizeOptions, p: NormalizeOptions, calls: seq<Call>) {
    forall i :: 0 <= i < |calls| ==> Replayable(t, o, p, calls[i])
  }

  // What the calls do to the raw texts, when fields that are empty under `p` are dropped.

  function RawItems(raws: map<int, string>, items: seq<IndexItem>): map<int, string> {
    if items == [] then raws
    else RawItems(raws, items[..|items| - 1])[items[|items| - 1].id := items[|items| - 1].text]
  }

  function RawRemovals(raws: map<int, string>, ids: seq<int>): map<int, string> {
    if ids == [] then raws else RawRemovals(raws, ids[..|ids| - 1]) - {ids[|ids| - 1]}
  }

  function RawCleared(raws: map<int, string>, lo: int, hi: int): map<int, string> {
    map id | id in raws && !(lo <= id <= hi) :: raws[id]
  }

  function RawFields(t: UnicodeTables, p: NormalizeOptions, raws: map<int, string>, lo: int, fields: seq<FieldValue>)
    : map<int, string>
  {
    if fields == [] then raws
    else
      var before, f := RawFields(t, p, raws, lo, fields[..|fields| - 1]), fields[|fields| - 1];
      if Normalized(t, p, f.text) == "" then before else before[lo + f.slot := f.text]
  }

  function RawRecord(t: UnicodeTables, p: NormalizeOptions, raws: map<int, string>, bits: nat, item: RecordIndexItem)
    : map<int, string>
  {
    var lo, hi := RangeLo(bits, item.recordId), RangeHi(bits, item.recordId);
    RawFields(t, p, RawCleared(raws, lo, hi), lo, item.fields)
  }

  function RawRecords(t: UnicodeTables, p: NormalizeOptions, raws: map<int, string>, bits: nat,
                      items: seq<RecordIndexItem>)
    : map<int, string>
  {
    if items == [] then raws
    else RawRecord(t, p, RawRecords(t, p, raws, bits, items[..|items| - 1]), bits, items[|items| - 1])
  }

  function RawStep(t: UnicodeTables, p: NormalizeOptions, bits: nat, raws: map<int, string>, call: Call)
    : map<int, string>
  {
    match call
    case Index(id, text) => raws[id := text]
    case IndexBatch(items) => RawItems(raws, items)
    case Remove(id) => raws - {id}
    case RemoveBatch(ids) => RawRemovals(raws, ids)
    case RemoveAll => map[]
    case IndexRecord(item) => if RecordFault(bits, item).Some? then raws else RawRecord(t, p, raws, bits, item)
    case IndexRecordsBatch(items) => if RecordsFault(bits, items, 0).Some? then raws
        else RawRecords(t, p, raws, bits, items)
    case RemoveRecord(r) => if ValidRecord(bits, r) then RawCleared(raws, RangeLo(bits, r), RangeHi(bits, r)) else raws
    case _ => raws
  }

  function RawRun(t: UnicodeTables, p: NormalizeOptions, bits: nat, calls: seq<Call>): map<int, string> {
    if calls == [] then map[] else RawStep(t, p, bits, RawRun(t, p, bits, calls[..|calls| - 1]), calls[|calls| - 1])
  }

  /** The tables hold exactly the raw texts, normalized under `o`. */
  ghost predicate Derived(t: UnicodeTables, o: NormalizeOptions, s: Store, raws: map<int, string>) {
    && s.docs.Keys == raws.Keys && s.entries.Keys == raws.Keys
    && forall id :: id in raws ==>
         s.docs[id] == Normalized(t, o, raws[id]) && s.entries[id] == MakeRow(Normalized(t, o, raws[id]), raws[id])
  }

  lemma {:induction false} ItemsDerived(t: UnicodeTables, o: NormalizeOptions, s: Store, raws: map<int, string>,
                                        items: seq<IndexItem>)
    requires Derived(t, o, s, raws)
    ensures Derived(t, o, IndexedAll(t, o, s, items), RawItems(raws, items))
    ensures SameStamps(s, IndexedAll(t, o, s, items))
  {
    if items != [] { ItemsDerived(t, o, s, raws, items[..|items| - 1]); }
  }

  lemma {:induction false} RemovalsDerived(t: UnicodeTables, o: NormalizeOptions, s: Store, raws: map<int, string>,
                                           ids: seq<int>)
    requires Derived(t, o, s, raws)
    ensures Derived(t, o, RemovedAll(s, ids), RawRemovals(raws, ids))
    ensures SameStamps(s, RemovedAll(s, ids))
  {
    if ids != [] { RemovalsDerived(t, o, s, raws, ids[..|ids| - 1]); }
  }

  lemma ClearedDerived(t: UnicodeTables, o: NormalizeOptions, s: Store, raws: map<int, string>, lo: int, hi: int)
    requires Derived(t, o, s, raws)
    ensures Derived(t, o, ClearedRange(s, lo, hi), RawCleared(raws, lo, hi))
    ensures SameStamps(s, ClearedRange(s, lo, hi))
  {
    assert forall id :: id in s.docs <==> id in raws;
    assert forall id :: id in s.entries <==> id in raws;
  }

  /** One field: written or skipped on both sides. */
  lemma FieldDerived(t: UnicodeTables, o: NormalizeOptions, s: Store, raws: map<int, string>, id: int, text: string)
    requires Derived(t, o, s, raws)
    ensures Derived(t, o, Put(s, id, Normalized(t, o, text), text), raws[id := text])
  {
  }

  lemma {:induction false} FieldsDerived(t: UnicodeTables, o: NormalizeOptions, p: NormalizeOptions, s: Store,
                                         raws: map<int, string>,
                                         lo: int, fields: seq<FieldValue>)
    requires Derived(t, o, s, raws) && SameFieldsStored(t, o, p, fields)
    ensures Derived(t, o, FieldsPut(t, o, s, lo, fields), RawFields(t, p, raws, lo, fields))
    ensures SameStamps(s, FieldsPut(t, o, s, lo, fields))
  {
    hide Derived, Normalized;
    if fields != [] {
      var front, n := fields[..|fields| - 1], |fields| - 1;
      assert forall i :: 0 <= i < n ==> front[i] == fields[i];
      FieldsDerived(t, o, p, s, raws, lo, front);
      assert Normalized(t, o, fields[n].text) == "" <==> Normalized(t, p, fields[n].text) == "";
      FieldDerived(t, o, FieldsPut(t, o, s, lo, front), RawFields(t, p, raws, lo, front), lo + fields[n].slot,
          fields[n].text);
    }
  }

  lemma RecordDerived(t: UnicodeTables, o: NormalizeOptions, p: NormalizeOptions, s: Store, raws: map<int, string>,
                      bits: nat, item: RecordIndexItem)
    requires Derived(t, o, s, raws) && SameFieldsStored(t, o, p, item.fields)
    ensures Derived(t, o, RecordPut(t, o, s, bits, item), RawRecord(t, p, raws, bits, item))
    ensures SameStamps(s, RecordPut(t, o, s, bits, item))
  {
    var lo, hi := RangeLo(bits, item.recordId), RangeHi(bits, item.recordId);
    ClearedDerived(t, o, s, raws, lo, hi);
    FieldsDerived(t, o, p, ClearedRange(s, lo, hi), RawCleared(raws, lo, hi), lo, item.fields);
  }

  lemma {:induction false} RecordsDerived(t: UnicodeTables, o: NormalizeOptions, p: NormalizeOptions, s: Store,
                                          raws: map<int, string>,
                                          bits: nat, items: seq<RecordIndexItem>)
    requires Derived(t, o, s, raws) && forall i :: 0 <= i < |items| ==> SameFieldsStored(t, o, p, items[i].fields)
    ensures Derived(t, o, RecordsPut(t, o, s, bits, items), RawRecords(t, p, raws, bits, items))
    ensures SameStamps(s, RecordsPut(t, o, s, bits, items))
  {
    if items != [] {
      var front, n := items[..|items| - 1], |items| - 1;
      assert forall i :: 0 <= i < n ==> front[i] == items[i];
      RecordsDerived(t, o, p, s, raws, bits, front);
      RecordDerived(t, o, p, RecordsPut(t, o, s, bits, front), RawRecords(t, p, raws, bits, front), bits, items[n]);
    }
  }

  lemma ReindexDerived(t: UnicodeTables, o: NormalizeOptions, p: NormalizeOptions, s: Store, raws: map<int, string>)
    requires Derived(t, o, s, raws)
    ensures Derived(t, p, Reindexed(t, p, s), raws)
  {
    forall id ensures id in RawIds(s) <==> id in raws {
      assert id in s.entries <==> id in raws;
    }
    assert forall id :: id in s.docs <==> id in raws;
  }

  lemma StepDerived(t: UnicodeTables, p: NormalizeOptions, sys: System, call: Call, raws: map<int, string>)
    requires sys.engine.Some? && Replayable(t, sys.engine.value.options, p, call)
    requires Derived(t, sys.engine.value.options, sys.store, raws)
    ensures var h, after := sys.engine.value, Step(t, sys, call);
            after.engine == sys.engine && Derived(t, h.options, after.store, RawStep(t, p, h.bits, raws, call))
  {
    hide Normalized, RecordPut, RecordsPut, RecordFault, RecordsFault, ValidRecord;
    var h := sys.engine.value;
    var o := h.options;
    match call {
      case Index(_, _) =>
      case IndexBatch(items) => ItemsDerived(t, o, sys.store, raws, items);
      case Remove(_) =>
      case RemoveBatch(ids) => RemovalsDerived(t, o, sys.store, raws, ids);
      case RemoveAll =>
      case Reindex => ReindexDerived(t, o, o, sys.store, raws);
      case IndexRecord(item) => RecordDerived(t, o, p, sys.store, raws, h.bits, item);
      case IndexRecordsBatch(items) => RecordsDerived(t, o, p, sys.store, raws, h.bits, items);
      case RemoveRecord(r) => ClearedDerived(t, o, sys.store, raws, RangeLo(h.bits, r), RangeHi(h.bits, r));
    }
  }

  lemma {:induction false} RunDerived(t: UnicodeTables, p: NormalizeOptions, sys: System, calls: seq<Call>)
    requires sys.engine.Some? && sys.store.docs == map[] && sys.store.entries == map[]
    requires AllReplayable(t, sys.engine.value.options, p, calls)
    ensures var h, after := sys.engine.value, Run(t, sys, calls);
            after.engine == sys.engine && Derived(t, h.options, after.store, RawRun(t, p, h.bits, calls))
  {
    if calls != [] {
      var front := calls[..|calls| - 1];
      RunDerived(t, p, sys, front);
      StepDerived(t, p, Run(t, sys, front), calls[|calls| - 1], RawRun(t, p, sys.engine.value.bits, front));
    }
  }

  lemma DerivedUnique(t: UnicodeTables, o: NormalizeOptions, s: Store, r: Store, raws: map<int, string>)
    requires Derived(t, o, s, raws) && Derived(t, o, r, raws)
    ensures s.docs == r.docs && s.entries == r.entries
  {
    forall id | id in s.docs ensures s.docs[id] == r.docs[id] { assert id in raws; }
    SameMap(s.docs, r.docs);
    forall id | id in s.entries ensures s.entries[id] == r.entries[id] { assert id in raws; }
    SameMap(s.entries, r.entries);
  }

  /** A fresh file opened under `o`, with the field bits asked for, if any. */
  function OpenedFresh(t: UnicodeTables, o: NormalizeOptions, fieldBits: Option<byte>): System {
    Step(t, System(FRESH, None), Open(o, fieldBits, false))
  }

  function FreshBits(fieldBits: Option<byte>): nat {
    if fieldBits.Some? then fieldBits.value else DEFAULT_FIELD_BITS
  }

  lemma OpenedFreshIs(t: UnicodeTables, o: NormalizeOptions, fieldBits: Option<byte>)
    requires ValidBits(FreshBits(fieldBits))
    ensures var sys := OpenedFresh(t, o, fieldBits);
            && sys.engine == Some(Handle(o, FreshBits(fieldBits)))
            && sys.store.docs == map[] && sys.store.entries == map[]
  {
  }

  /** A run over a fresh file keeps its engine, its stamps and what its calls store. */
  lemma FreshRun(t: UnicodeTables, o: NormalizeOptions, p: NormalizeOptions, fieldBits: Option<byte>, calls: seq<Call>)
    requires ValidBits(FreshBits(fieldBits)) && AllReplayable(t, o, p, calls)
    ensures var sys, bits := Run(t, OpenedFresh(t, o, fieldBits), calls), FreshBits(fieldBits);
            && Invariant(t, sys) && sys.engine == Some(Handle(o, bits))
            && Derived(t, o, sys.store, RawRun(t, p, bits, calls))
  {
    hide FRESH, Invariant, OpenedFresh, Derived, AllReplayable, RawRun, Run;
    OpenedFreshIs(t, o, fieldBits);
    RunDerived(t, p, OpenedFresh(t, o, fieldBits), calls);
    FreshKept(t, o, fieldBits, calls);
  }

  lemma FreshKept(t: UnicodeTables, o: NormalizeOptions, fieldBits: Option<byte>, calls: seq<Call>)
    ensures Invariant(t, Run(t, OpenedFresh(t, o, fieldBits), calls))
  {
    hide Invariant, Run, OpenedStore;
    FreshInvariant(t);
    StepKeeps(t, System(FRESH, None), Open(o, fieldBits, false));
    RunKeeps(t, OpenedFresh(t, o, fieldBits), calls);
  }

  /** The field bits that a reopening finds: those asked for, those of a non-empty index, or the default. */
  predicate BitsRemain(fieldBits: Option<byte>, again: Option<byte>, s: Store) {
    again.Some? || s.entries != map[] || FreshBits(fieldBits) == DEFAULT_FIELD_BITS
  }

  /**
   * Index documents and records under one set of options and any field bits, reopen under another with a rebuild: the
   * tables are those the same calls would have produced under the new options from the start, provided no field is
   * empty under one choice of options only. So are the engine and its stamps, unless an empty index is reopened
   * without asking for its field bits again.
   */
  lemma RebuildIsReplay(t: UnicodeTables, o: NormalizeOptions, p: NormalizeOptions,
                        fieldBits: Option<byte>, again: Option<byte>, calls: seq<Call>)
    requires ValidBits(FreshBits(fieldBits)) && (again.Some? ==> again.value == FreshBits(fieldBits))
    requires AllReplayable(t, o, p, calls)
    ensures var rebuilt := Step(t, Run(t, OpenedFresh(t, o, fieldBits), calls), Open(p, again, true));
            var replayed := Run(t, OpenedFresh(t, p, fieldBits), calls);
            && rebuilt.store.docs == replayed.store.docs && rebuilt.store.entries == replayed.store.entries
            && rebuilt.engine.Some? && rebuilt.engine.value.options == p
            && rebuilt.store.profile == Some(FingerprintKey(p))
            && (rebuilt == replayed <==> BitsRemain(fieldBits, again, replayed.store))
  {
    hide OpenedFresh, Run, Derived, RawRun, Replayable, NormalizedUnder, FingerprintKey, ValidBits, OpenedStore;
    forall i | 0 <= i < |calls| ensures Replayable(t, p, p, calls[i]) { ReplayableBack(t, o, p, calls[i]); }
    FreshRun(t, o, p, fieldBits, calls);
    FreshRun(t, p, p, fieldBits, calls);
    var before, replayed := Run(t, OpenedFresh(t, o, fieldBits), calls), Run(t, OpenedFresh(t, p, fieldBits), calls);
    RebuiltIsDerived(t, o, p, again, before, RawRun(t, p, FreshBits(fieldBits), calls));
    var rebuilt := Step(t, before, Open(p, again, true));
    DerivedUnique(t, p, rebuilt.store, replayed.store, RawRun(t, p, FreshBits(fieldBits), calls));
    SameEmptiness(t, o, p, before.store, replayed.store, RawRun(t, p, FreshBits(fieldBits), calls));
  }

  lemma SameEmptiness(t: UnicodeTables, o: NormalizeOptions, p: NormalizeOptions, s: Store, r: Store,
                      raws: map<int, string>)
    requires Derived(t, o, s, raws) && Derived(t, p, r, raws)
    ensures s.entries == map[] <==> r.entries == map[]
  {
    assert s.entries.Keys == r.entries.Keys;
    assert s.entries == map[] <==> s.entries.Keys == {};
    assert r.entries == map[] <==> r.entries.Keys == {};
  }

  lemma ReplayableBack(t: UnicodeTables, o: NormalizeOptions, p: NormalizeOptions, call: Call)
    requires Replayable(t, o, p, call)
    ensures Replayable(t, p, p, call)
  {
  }

  lemma RebuiltIsDerived(t: UnicodeTables, o: NormalizeOptions, p: NormalizeOptions, again: Option<byte>,
                         before: System, raws: map<int, string>)
    requires Invariant(t, before) && before.engine.Some? && before.engine.value.options == o
    requires Derived(t, o, before.store, raws) && (again.Some? ==> again.value == before.engine.value.bits)
    ensures var rebuilt := Step(t, before, Open(p, again, true));
            var kept := again.Some? || before.store.entries != map[];
            var bits := if kept then before.engine.value.bits else DEFAULT_FIELD_BITS;
            && rebuilt.engine == Some(Handle(p, bits)) && rebuilt.store.bits == Some(bits)
            && Derived(t, p, rebuilt.store, raws) && rebuilt.store.profile == Some(FingerprintKey(p))
  {
    hide Normalized, NormalizedUnder, FingerprintKey;
    var kept := again.Some? || before.store.entries != map[];
    var stamped := before.store.(bits := Some(if kept then before.engine.value.bits else DEFAULT_FIELD_BITS));
    if ProfileDiffers(before.store, p) {
      ReindexDerived(t, o, p, stamped, raws);
    } else if before.store.entries != map[] {
      FingerprintInjective(o, p);
    } else {
      forall id ensures id !in raws { assert id !in before.store.entries; }
    }
  }
}
