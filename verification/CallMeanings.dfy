/** What each call does to an index, as a host sees it. */
module CallMeanings {
  import opened Wrappers
  import opened Text
  import opened Config
  import opened Normalize
  import opened Packing
  import opened IndexState
  import opened RecordLayer
  import opened Runs

  // ---------------------------------------------------------------------------
  // Opening
  // ---------------------------------------------------------------------------

  /** An index as some run from a fresh file left it in the hands of an engine. */
  ghost predicate Reachable(t: UnicodeTables, sys: System) {
    exists calls :: Run(t, System(FRESH, None), calls) == sys
  }

  lemma ReachableKeeps(t: UnicodeTables, sys: System)
    requires Reachable(t, sys)
    ensures Invariant(t, sys) && IdsFit(sys.store)
  {
    hide Invariant, Run;
    var calls :| Run(t, System(FRESH, None), calls) == sys;
    FreshInvariant(t);
    RunKeeps(t, System(FRESH, None), calls);
    RunKeepsIds(t, System(FRESH, None), calls);
  }

  /** Every row that kept its raw text is that text normalized under `o`; other rows, and the ids, are as before. */
  ghost predicate RebuiltUnder(t: UnicodeTables, o: NormalizeOptions, before: Store, after: Store) {
    && after.entries.Keys == before.entries.Keys && after.docs.Keys == before.entries.Keys
    && forall id :: id in before.entries ==>
         && after.docs[id] == after.entries[id].norm
         && after.entries[id].raw == before.entries[id].raw
         && after.entries[id].normRev == Reverse(after.entries[id].norm)
         && after.entries[id].norm ==
              if before.entries[id].raw.Some? then Normalized(t, o, before.entries[id].raw.value)
              else before.entries[id].norm
  }

  /**
   * Reopening an index that holds something. Under the options and field bits it was built with nothing changes. Other
   * field bits are refused, with a rebuild or without. Other options are refused without a rebuild; with one every row
   * is normalized afresh under them. A refused open leaves the index as it was and no engine.
   */
  lemma ReopenMeaning(t: UnicodeTables, sys: System, h: Handle, p: NormalizeOptions, fieldBits: Option<byte>,
                      rebuild: bool, inUse: Option<Handle>)
    requires Reachable(t, sys) && sys.engine == Some(h) && sys.store.entries != map[]
    ensures var after := Runs.Step(t, System(sys.store, inUse), Open(p, fieldBits, rebuild));
            if fieldBits.Some? && fieldBits.value != h.bits then after == System(sys.store, None)
            else if p == h.options then after == sys
            else if !rebuild then after == System(sys.store, None)
            else && after.engine == Some(Handle(p, h.bits)) && after.store.bits == Some(h.bits)
                 && after.store.profile == Some(FingerprintKey(p)) && RebuiltUnder(t, p, sys.store, after.store)
  {
    hide Reachable, StoreInvariant, FingerprintKey, Normalized;
    ReachableKeeps(t, sys);
    if p != h.options && FingerprintKey(p) == FingerprintKey(h.options) { FingerprintInjective(p, h.options); }
    EngineSees(t, sys);
    if p != h.options && rebuild {
      RegeneratedRows(t, p, sys.store.(bits := Some(h.bits)));
    }
  }

  lemma RegeneratedRows(t: UnicodeTables, p: NormalizeOptions, s: Store)
    requires Agree(s)
    ensures RebuiltUnder(t, p, s, Reindexed(t, p, s))
  {
    hide Normalized, FingerprintKey;
    assert RawIds(s) <= s.entries.Keys;
  }

  /** A reachable index is already what `reindex` would make of it. */
  lemma ReindexMeaning(t: UnicodeTables, sys: System)
    requires Reachable(t, sys) && sys.engine.Some?
    ensures Runs.Step(t, sys, Reindex) == sys
  {
    hide Reachable, FingerprintKey, Normalized;
    ReachableKeeps(t, sys);
    EngineSees(t, sys);
    var s, after := sys.store, Reindexed(t, sys.engine.value.options, sys.store);
    RegeneratedRows(t, sys.engine.value.options, s);
    SameKeys(s, after);
    forall id | id in s.entries ensures after.entries[id] == s.entries[id] {
      assert after.entries[id].raw == s.entries[id].raw;
    }
    SameMap(after.entries, s.entries);
    forall id | id in after.docs ensures after.docs[id] == s.docs[id] {
      assert id in s.entries;
      assert after.docs[id] == after.entries[id].norm;
    }
    SameMap(after.docs, s.docs);
  }

  lemma SameKeys(s: Store, after: Store)
    requires Agree(s) && after.entries.Keys == s.entries.Keys && after.docs.Keys == s.entries.Keys
    ensures forall id :: id in after.docs <==> id in s.entries
    ensures forall id :: id in after.entries <==> id in s.entries
    ensures forall id :: id in s.docs <==> id in s.entries
  {
    assert forall id :: id in after.docs <==> id in after.docs.Keys;
    assert forall id :: id in s.docs <==> id in s.docs.Keys;
    assert forall id :: id in after.entries <==> id in after.entries.Keys;
  }

  /** An empty index takes any options, and the field bits asked for, from 1 to 62, or eight. */
  lemma OpenEmptyMeaning(t: UnicodeTables, s: Store, p: NormalizeOptions, fieldBits: Option<byte>, rebuild: bool,
                         inUse: Option<Handle>)
    requires s.docs == map[] && s.entries == map[]
    ensures var after := Runs.Step(t, System(s, inUse), Open(p, fieldBits, rebuild));
            var bits := if fieldBits.Some? then fieldBits.value else 8;
            if bits < 1 || bits > 62 then after == System(s, None)
            else after == System(Store(map[], map[], Some(FingerprintKey(p)), Some(bits)), Some(Handle(p, bits)))
  {
  }

  /** An index from before stamping counts as built with the loose preset and eight field bits. */
  lemma OpenUnstampedMeaning(t: UnicodeTables, s: Store, p: NormalizeOptions, fieldBits: Option<byte>,
                             inUse: Option<Handle>)
    requires s.entries != map[] && s.profile == None && s.bits == None
    ensures var loose := NormalizeOptions(true, true, false, false, false, false, false, false);
            Runs.Step(t, System(s, inUse), Open(p, fieldBits, false)) ==
            if p == loose && (fieldBits == None || fieldBits == Some(8))
            then System(s.(bits := Some(8), profile := Some("loose")), Some(Handle(loose, 8)))
            else System(s, None)
  {
    hide FingerprintKey;
    FingerprintSpelling(p);
    if p != Loose.Options() && FingerprintKey(p) == "loose" { FingerprintInjective(p, Loose.Options()); }
  }

  // ---------------------------------------------------------------------------
  // Changing the field bits
  // ---------------------------------------------------------------------------

  /** Some non-negative 64-bit id has the record and slot of `id` in the other encoding. */
  ghost predicate HasPlace(from: nat, id: int, to: nat) {
    exists p :: 0 <= p <= 0x7FFF_FFFF_FFFF_FFFF && SamePlace(from, id, to, p)
  }

  predicate SamePlace(from: nat, id: int, to: nat, p: int) {
    RecordOf(to, p) == RecordOf(from, id) && LowBits(to, p) == LowBits(from, id)
  }

  /** The call is accepted for 1 to 62 bits if every row has a place in the new encoding. */
  ghost predicate Reencodes(s: Store, from: nat, to: nat) {
    1 <= to <= 62 && forall id :: id in s.entries ==> id >= 0 && HasPlace(from, id, to)
  }

  lemma ReencodesExactly(s: Store, from: nat, to: nat)
    requires ValidBits(from)
    ensures CanRepack(s, from, to) <==> Reencodes(s, from, to) && from != to
  {
    if ValidBits(to) {
      forall id ensures Fits(from, to, id) <==> id >= 0 && HasPlace(from, id, to) { HasPlaceExactly(from, id, to); }
    }
  }

  lemma HasPlaceExactly(from: nat, id: int, to: nat)
    requires ValidBits(from) && ValidBits(to)
    ensures Fits(from, to, id) <==> id >= 0 && HasPlace(from, id, to)
  {
    FitsExactly(from, to, id);
    if Fits(from, to, id) {
      var p :| 0 <= p <= 0x7FFF_FFFF_FFFF_FFFF
        && RecordOf(to, p) == RecordOf(from, id) && LowBits(to, p) == LowBits(from, id);
      assert SamePlace(from, id, to, p);
    }
  }

  /**
   * `change_field_bits` on a reachable index: every row moves to its place in the new encoding with its text, nothing
   * else is stored, and the engine goes on with the new bits; or, if some row has no place, nothing changes.
   */
  lemma ReencodingMeaning(t: UnicodeTables, sys: System, h: Handle, n: byte)
    requires Reachable(t, sys) && sys.engine == Some(h)
    ensures var after := Runs.Step(t, sys, ChangeFieldBits(n));
            if Reencodes(sys.store, h.bits, n)
            then && after.engine == Some(h.(bits := n)) && after.store.bits == Some(n)
                 && after.store.profile == sys.store.profile
                 && forall id, p :: SamePlace(h.bits, id, n, p) ==> SameRow(sys.store, id, after.store, p)
            else after == sys
  {
    hide Reachable, FingerprintKey, Reencodes, SamePlace, SameRow, Repacked;
    ReachableKeeps(t, sys);
    EngineSees(t, sys);
    ReencodesExactly(sys.store, h.bits, n);
    if Reencodes(sys.store, h.bits, n) {
      forall id, p | SamePlace(h.bits, id, n, p)
        ensures SameRow(sys.store, id, Runs.Step(t, sys, ChangeFieldBits(n)).store, p)
      {
        if n == h.bits {
          SamePlaceSame(n, id, p);
          SameRowRefl(sys.store, id);
        } else {
          MovedRowSame(sys.store, h.bits, n, id, p);
        }
      }
      RepackedStamps(sys.store, h.bits, n);
    }
  }

  /** The id is taken in both or in neither, by the same text. */
  predicate SameRow(s: Store, id: int, after: Store, p: int) {
    && (p in after.entries <==> id in s.entries) && (p in after.docs <==> id in s.docs)
    && (id in s.entries && p in after.entries ==> after.entries[p] == s.entries[id])
    && (id in s.docs && p in after.docs ==> after.docs[p] == s.docs[id])
  }

  lemma SameRowRefl(s: Store, id: int)
    ensures SameRow(s, id, s, id)
  {
  }

  lemma SamePlaceSame(bits: nat, id: int, p: int)
    requires SamePlace(bits, id, bits, p)
    ensures p == id
  {
    PackUnpack(bits, id);
    PackUnpack(bits, p);
  }

  lemma RepackedStamps(s: Store, from: nat, to: nat)
    ensures CanRepack(s, from, to) ==>
              Repacked(s, from, to).bits == Some(to) && Repacked(s, from, to).profile == s.profile
  {
  }

  lemma MovedRowSame(s: Store, from: nat, to: nat, id: int, p: int)
    requires CanRepack(s, from, to) && Agree(s) && SamePlace(from, id, to, p)
    ensures SameRow(s, id, Repacked(s, from, to), p)
  {
    FitsExactly(from, to, id);
    assert p == Repack(from, to, id);
    RepackedKeys(s, from, to);
    if id in s.entries { MovedRow(s, StoredRow(id, s.entries[id].norm, s.entries[id].raw), from, to); }
    if p in Repacked(s, from, to).entries {
      var other :| other in s.entries && Repack(from, to, other) == p;
      RepackFaithful(from, to, other);
      PackUnpack(from, other);
      PackUnpack(from, id);
    }
  }

  // ---------------------------------------------------------------------------
  // Plain documents
  // ---------------------------------------------------------------------------

  /** Both tables hold the document under this id: normal form, its reversal, and the text itself. */
  predicate HoldsText(t: UnicodeTables, o: NormalizeOptions, s: Store, id: int, text: string) {
    var norm := Normalized(t, o, text);
    id in s.docs && id in s.entries && s.docs[id] == norm && s.entries[id] == Row(norm, Reverse(norm), Some(text))
  }

  predicate HoldsNothing(s: Store, id: int) {
    id !in s.docs && id !in s.entries
  }

  /** The row under `id` after a batch: the last of its texts, or what was there before. */
  ghost predicate BatchDecides(t: UnicodeTables, o: NormalizeOptions, s: Store, after: Store, items: seq<IndexItem>,
                               id: int)
  {
    && ((forall i :: 0 <= i < |items| ==> items[i].id != id) ==> SameRow(s, id, after, id))
    && (forall i :: 0 <= i < |items| && items[i].id == id && (forall j :: i < j < |items| ==> items[j].id != id) ==>
          HoldsText(t, o, after, id, items[i].text))
  }

  lemma IndexedMeaning(t: UnicodeTables, o: NormalizeOptions, s: Store, x: int, text: string, id: int)
    ensures var after := Indexed(t, o, s, x, text);
            if id == x then HoldsText(t, o, after, id, text)
            else && SameRow(s, id, after, id)
                 && forall any :: HoldsText(t, o, s, id, any) ==> HoldsText(t, o, after, id, any)
  {
    hide Normalized;
  }

  lemma SameRowTrans(s: Store, mid: Store, after: Store, id: int)
    requires SameRow(s, id, mid, id) && SameRow(mid, id, after, id)
    ensures SameRow(s, id, after, id)
  {
  }

  lemma BatchSnoc(t: UnicodeTables, o: NormalizeOptions, s: Store, mid: Store, front: seq<IndexItem>, last: IndexItem,
                  id: int)
    requires BatchDecides(t, o, s, mid, front, id)
    ensures BatchDecides(t, o, s, Indexed(t, o, mid, last.id, last.text), front + [last], id)
  {
    var items, n := front + [last], |front|;
    var after := Indexed(t, o, mid, last.id, last.text);
    assert items[n] == last && forall i :: 0 <= i < n ==> items[i] == front[i];
    IndexedMeaning(t, o, mid, last.id, last.text, id);
    hide HoldsText, SameRow, Indexed;
    if last.id != id {
      if forall i :: 0 <= i < |front| ==> front[i].id != id { SameRowTrans(s, mid, after, id); }
      forall i | 0 <= i < |items| && items[i].id == id && forall j :: i < j < |items| ==> items[j].id != id
        ensures HoldsText(t, o, after, id, items[i].text)
      {
        assert forall j :: i < j < n ==> items[j].id != id;
        assert HoldsText(t, o, mid, id, front[i].text);
      }
    }
  }

  lemma NoItems(t: UnicodeTables, o: NormalizeOptions, s: Store, id: int)
    ensures BatchDecides(t, o, s, s, [], id)
  {
  }

  lemma {:induction false} BatchMeaning(t: UnicodeTables, o: NormalizeOptions, s: Store, items: seq<IndexItem>,
                                        id: int)
    ensures BatchDecides(t, o, s, IndexedAll(t, o, s, items), items, id)
    ensures SameStamps(s, IndexedAll(t, o, s, items))
  {
    hide BatchDecides, Normalized;
    if items == [] {
      NoItems(t, o, s, id);
    } else {
      var front, last := items[..|items| - 1], items[|items| - 1];
      BatchMeaning(t, o, s, front, id);
      BatchSnoc(t, o, s, IndexedAll(t, o, s, front), front, last, id);
      assert items == front + [last];
    }
  }

  lemma {:induction false} RemovalsMeaning(s: Store, ids: seq<int>, id: int)
    ensures if id in ids then HoldsNothing(RemovedAll(s, ids), id) else SameRow(s, id, RemovedAll(s, ids), id)
    ensures SameStamps(s, RemovedAll(s, ids))
  {
    if ids != [] { RemovalsMeaning(s, ids[..|ids| - 1], id); }
  }

  /** What the plain calls do to the row under any `id`; engine and stamps stay. */
  lemma WriteMeaning(t: UnicodeTables, s: Store, h: Handle, call: Call, id: int)
    requires call.Index? || call.IndexBatch? || call.Remove? || call.RemoveBatch? || call.RemoveAll?
    ensures var after := Runs.Step(t, System(s, Some(h)), call);
            && after.engine == Some(h) && SameStamps(s, after.store)
            && match call
               case Index(x, text) =>
                 if id == x then HoldsText(t, h.options, after.store, id, text) else SameRow(s, id, after.store, id)
               case IndexBatch(items) => BatchDecides(t, h.options, s, after.store, items, id)
               case Remove(x) => if id == x then HoldsNothing(after.store, id) else SameRow(s, id, after.store, id)
               case RemoveBatch(ids) =>
                 if id in ids then HoldsNothing(after.store, id) else SameRow(s, id, after.store, id)
               case _ => HoldsNothing(after.store, id)
  {
    hide Normalized, BatchDecides;
    match call
    case Index(x, text) => IndexedMeaning(t, h.options, s, x, text, id);
    case IndexBatch(items) => BatchMeaning(t, h.options, s, items, id);
    case RemoveBatch(ids) => RemovalsMeaning(s, ids, id);
    case _ =>
  }

  // ---------------------------------------------------------------------------
  // Records
  // ---------------------------------------------------------------------------

  /** The first `n` fields have slots of `bits` bits, all different. */
  ghost predicate Acceptable(bits: nat, fields: seq<FieldValue>, n: nat)
    requires n <= |fields|
  {
    forall i :: 0 <= i < n ==>
      fields[i].slot < Pow2(bits) && forall j :: 0 <= j < i ==> fields[j].slot != fields[i].slot
  }

  /** The error for the `i`-th field: too large comes before used twice. */
  ghost predicate FaultOf(bits: nat, fields: seq<FieldValue>, i: nat, e: SearchError)
    requires i < |fields|
  {
    if fields[i].slot >= Pow2(bits) then e == SlotDoesNotFit(fields[i].slot)
    else e == DuplicateSlot(fields[i].slot) && exists j :: 0 <= j < i && fields[j].slot == fields[i].slot
  }

  lemma {:induction false} FieldFaultMeaning(bits: nat, fields: seq<FieldValue>, k: nat)
    requires k <= |fields| && Acceptable(bits, fields, k)
    ensures match FieldFault(bits, fields, k)
            case None => Acceptable(bits, fields, |fields|)
            case Some(e) => exists i :: k <= i < |fields| && Acceptable(bits, fields, i) && FaultOf(bits, fields, i, e)
    decreases |fields| - k
  {
    if k < |fields| && fields[k].slot < Pow2(bits)
       && !(exists j :: 0 <= j < k && fields[j].slot == fields[k].slot)
    {
      assert Acceptable(bits, fields, k + 1);
      FieldFaultMeaning(bits, fields, k + 1);
    } else if k < |fields| {
      assert FaultOf(bits, fields, k, FieldFault(bits, fields, k).value);
    }
  }

  /** A record id beyond 64 bits is reported first, then the first field that is too large or repeats a slot. */
  lemma RecordFaultMeaning(bits: nat, item: RecordIndexItem)
    requires ValidBits(bits)
    ensures var inRange := exists p :: 0 <= p <= 0x7FFF_FFFF_FFFF_FFFF && RecordOf(bits, p) == item.recordId;
            match RecordFault(bits, item)
            case None => inRange && Acceptable(bits, item.fields, |item.fields|)
            case Some(e) =>
              if inRange then exists i ::
                0 <= i < |item.fields| && Acceptable(bits, item.fields, i) && FaultOf(bits, item.fields, i, e)
              else e == RecordOutOfRange(item.recordId)
  {
    hide Acceptable, FaultOf;
    ValidRecordExactly(bits, item.recordId);
    assert Acceptable(bits, item.fields, 0) by { NoneAcceptable(bits, item.fields); }
    FieldFaultMeaning(bits, item.fields, 0);
  }

  lemma NoneAcceptable(bits: nat, fields: seq<FieldValue>)
    ensures Acceptable(bits, fields, 0)
  {
  }

  /** The first record with a fault decides for its batch. */
  lemma {:induction false} RecordsFaultMeaning(bits: nat, items: seq<RecordIndexItem>, k: nat)
    requires k <= |items| && forall i :: 0 <= i < k ==> RecordFault(bits, items[i]).None?
    ensures match RecordsFault(bits, items, k)
            case None => forall i :: 0 <= i < |items| ==> RecordFault(bits, items[i]).None?
            case Some(e) => exists i :: 0 <= i < |items| && RecordFault(bits, items[i]) == Some(e)
                              && forall j :: 0 <= j < i ==> RecordFault(bits, items[j]).None?
    decreases |items| - k
  {
    hide RecordFault;
    if k < |items| && RecordFault(bits, items[k]).None? { RecordsFaultMeaning(bits, items, k + 1); }
  }

  /** The row under `id` after its record was written: its slot's field, if that has text left, or nothing. */
  ghost predicate FieldDecides(t: UnicodeTables, o: NormalizeOptions, s: Store, bits: nat, fields: seq<FieldValue>,
                               id: int)
  {
    && ((forall i :: 0 <= i < |fields| ==> fields[i].slot != LowBits(bits, id)) ==> HoldsNothing(s, id))
    && (forall i :: 0 <= i < |fields| && fields[i].slot == LowBits(bits, id) ==>
          if Normalized(t, o, fields[i].text) == "" then HoldsNothing(s, id)
          else HoldsText(t, o, s, id, fields[i].text))
  }

  /** An accepted record replaces what its id held and leaves the others alone; a refused one changes nothing. */
  lemma IndexRecordMeaning(t: UnicodeTables, sys: System, h: Handle, item: RecordIndexItem, id: int)
    requires Reachable(t, sys) && sys.engine == Some(h)
    ensures var after := Runs.Step(t, sys, IndexRecord(item));
            if RecordFault(h.bits, item).Some? then after == sys
            else && after.engine == Some(h) && SameStamps(sys.store, after.store)
                 && if RecordOf(h.bits, id) != item.recordId then SameRow(sys.store, id, after.store, id)
                    else FieldDecides(t, h.options, after.store, h.bits, item.fields, id)
  {
    hide Reachable, NormalizedUnder, RecordFault, RecordPut, FieldDecides, SameRow, FingerprintKey;
    ReachableKeeps(t, sys);
    EngineSees(t, sys);
    if RecordFault(h.bits, item).None? {
      RecordPutGood(t, h.options, sys.store, h.bits, item);
      if RecordOf(h.bits, id) != item.recordId {
        OtherRecordKept(t, h.options, sys.store, h.bits, item, id);
      } else {
        OwnFieldDecides(t, h.options, sys.store, h.bits, item, id);
      }
    }
  }

  lemma SlotOfId(s: Store, bits: nat, id: int)
    ensures var slots, slot := FieldsOf(s, bits, RecordOf(bits, id)), LowBits(bits, id);
            (slot in slots <==> id in s.entries) && (slot in slots ==> slots[slot] == s.entries[id])
  {
    PackUnpack(bits, id);
  }

  lemma OtherRecordKept(t: UnicodeTables, o: NormalizeOptions, s: Store, bits: nat, item: RecordIndexItem, id: int)
    requires RecordFault(bits, item).None? && RecordOf(bits, id) != item.recordId
    requires Agree(s) && Agree(RecordPut(t, o, s, bits, item))
    ensures SameRow(s, id, RecordPut(t, o, s, bits, item), id)
  {
    hide RecordFault, RecordPut, FieldsOf, RecordOf, LowBits;
    RecordPutReplaces(t, o, s, bits, item, RecordOf(bits, id));
    SlotOfId(s, bits, id);
    SlotOfId(RecordPut(t, o, s, bits, item), bits, id);
  }

  lemma OwnFieldDecides(t: UnicodeTables, o: NormalizeOptions, s: Store, bits: nat, item: RecordIndexItem, id: int)
    requires RecordFault(bits, item).None? && RecordOf(bits, id) == item.recordId
    requires Agree(RecordPut(t, o, s, bits, item))
    ensures FieldDecides(t, o, RecordPut(t, o, s, bits, item), bits, item.fields, id)
  {
    RecordAccepted(bits, item);
    RecordPutReplaces(t, o, s, bits, item, RecordOf(bits, id));
    FieldRowsMeaning(t, o, bits, item.fields);
    var after := RecordPut(t, o, s, bits, item);
    SlotOfId(after, bits, id);
    hide RecordFault, RecordPut, FieldsOf, FieldRows, RecordOf, LowBits, Normalized;
    forall i | 0 <= i < |item.fields| && item.fields[i].slot == LowBits(bits, id)
      ensures if Normalized(t, o, item.fields[i].text) == "" then HoldsNothing(after, id)
              else HoldsText(t, o, after, id, item.fields[i].text)
    {
      OnlyOwnSlot(t, o, bits, item.fields, i);
    }
  }

  /** Removing a record removes its rows and no others; a record id beyond 64 bits is refused. */
  lemma RemoveRecordMeaning(t: UnicodeTables, sys: System, h: Handle, record: i64, id: int)
    requires Reachable(t, sys) && sys.engine == Some(h)
    ensures var after := Runs.Step(t, sys, RemoveRecord(record));
            if forall p :: 0 <= p <= 0x7FFF_FFFF_FFFF_FFFF ==> RecordOf(h.bits, p) != record then after == sys
            else && after.engine == Some(h) && SameStamps(sys.store, after.store)
                 && if RecordOf(h.bits, id) == record then HoldsNothing(after.store, id)
                    else SameRow(sys.store, id, after.store, id)
  {
    hide Reachable, StoreInvariant, FingerprintKey, RecordOf, ValidRecord, RangeLo, RangeHi;
    ReachableKeeps(t, sys);
    ValidRecordExactly(h.bits, record);
    RangeIsRecord(h.bits, record, id);
  }
}
