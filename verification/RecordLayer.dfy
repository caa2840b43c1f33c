/** Records as the host sees them: slots with text, under a record id. */
module RecordLayer {
  import opened Wrappers
  import opened Text
  import opened Config
  import opened Normalize
  import opened Packing
  import opened IndexState
  import opened Runs

  /** The stored fields of a record, by slot. */
  function FieldsOf(s: Store, bits: nat, record: int): map<int, Row> {
    map slot | 0 <= slot < Pow2(bits) && Pack(bits, record, slot) in s.entries :: s.entries[Pack(bits, record, slot)]
  }

  /** The fields worth storing: those with text left after normalization. */
  function FieldRows(t: UnicodeTables, o: NormalizeOptions, fields: seq<FieldValue>): map<int, Row> {
    if fields == [] then map[]
    else
      var before, f := FieldRows(t, o, fields[..|fields| - 1]), fields[|fields| - 1];
      var norm := Normalized(t, o, f.text);
      if norm == "" then before else before[f.slot as int := MakeRow(norm, f.text)]
  }

  /** Some field is given for `slot` with text left after normalization. */
  ghost predicate HasField(t: UnicodeTables, o: NormalizeOptions, fields: seq<FieldValue>, slot: int) {
    exists i :: 0 <= i < |fields| && fields[i].slot == slot && Normalized(t, o, fields[i].text) != ""
  }

  /** Exactly the non-empty fields, each under its own slot. */
  lemma {:induction false} FieldRowsMeaning(t: UnicodeTables, o: NormalizeOptions, bits: nat, fields: seq<FieldValue>)
    requires FieldsFit(bits, fields)
    ensures forall slot :: slot in FieldRows(t, o, fields) <==> HasField(t, o, fields, slot)
    ensures forall i :: 0 <= i < |fields| && Normalized(t, o, fields[i].text) != "" ==>
              fields[i].slot in FieldRows(t, o, fields)
              && FieldRows(t, o, fields)[fields[i].slot] == MakeRow(Normalized(t, o, fields[i].text), fields[i].text)
  {
    if fields != [] {
      var front, n := fields[..|fields| - 1], |fields| - 1;
      assert FieldsFit(bits, front);
      FieldRowsMeaning(t, o, bits, front);
      assert forall i :: 0 <= i < n ==> front[i] == fields[i];
      forall slot ensures slot in FieldRows(t, o, fields) <==> HasField(t, o, fields, slot) {
        HasFieldSnoc(t, o, fields, slot);
      }
    }
  }

  lemma HasFieldSnoc(t: UnicodeTables, o: NormalizeOptions, fields: seq<FieldValue>, slot: int)
    requires fields != []
    ensures var n := |fields| - 1;
            HasField(t, o, fields, slot) <==>
              HasField(t, o, fields[..n], slot) || (fields[n].slot == slot && Normalized(t, o, fields[n].text) != "")
  {
    var n := |fields| - 1;
    if HasField(t, o, fields[..n], slot) {
      var i :| 0 <= i < n && fields[..n][i].slot == slot && Normalized(t, o, fields[..n][i].text) != "";
      assert fields[i].slot == slot;
    }
    if HasField(t, o, fields, slot) {
      var i :| 0 <= i < |fields| && fields[i].slot == slot && Normalized(t, o, fields[i].text) != "";
      assert i < n ==> fields[..n][i] == fields[i];
    }
  }

  // ---------------------------------------------------------------------------
  // Writing one record
  // ---------------------------------------------------------------------------

  lemma PutFieldsOf(s: Store, bits: nat, record: int, slot: int, norm: string, raw: string, r: int)
    requires 0 <= slot < Pow2(bits)
    ensures FieldsOf(Put(s, Pack(bits, record, slot), norm, raw), bits, r) ==
              if r == record then FieldsOf(s, bits, r)[slot := MakeRow(norm, raw)] else FieldsOf(s, bits, r)
  {
    var id := Pack(bits, record, slot);
    forall x | 0 <= x < Pow2(bits) ensures Pack(bits, r, x) == id <==> r == record && x == slot {
      PackOrder(bits, r, x, record, slot);
      PackOrder(bits, record, slot, r, x);
    }
    var after := FieldsOf(Put(s, id, norm, raw), bits, r);
    var expected := if r == record then FieldsOf(s, bits, r)[slot := MakeRow(norm, raw)] else FieldsOf(s, bits, r);
    forall x ensures x in after <==> x in expected {
    }
    SameMap(after, expected);
  }

  lemma ClearedFieldsOf(s: Store, bits: nat, record: int, r: int)
    ensures FieldsOf(ClearedRange(s, RangeLo(bits, record), RangeHi(bits, record)), bits, r) ==
              if r == record then map[] else FieldsOf(s, bits, r)
  {
    forall x | 0 <= x < Pow2(bits)
      ensures RangeLo(bits, record) <= Pack(bits, r, x) <= RangeHi(bits, record) <==> r == record
    {
      RangeIsRecord(bits, record, Pack(bits, r, x));
      UnpackPack(bits, r, x);
    }
    var after := FieldsOf(ClearedRange(s, RangeLo(bits, record), RangeHi(bits, record)), bits, r);
    var expected := if r == record then map[] else FieldsOf(s, bits, r);
    forall x ensures x in after <==> x in expected {
    }
    SameMap(after, expected);
  }

  lemma LoPlusSlot(bits: nat, record: int, slot: int)
    ensures RangeLo(bits, record) + slot == Pack(bits, record, slot)
  {
  }

  ghost predicate WrittenAs(t: UnicodeTables, o: NormalizeOptions, s: Store, after: Store, bits: nat, record: int,
                            fields: seq<FieldValue>, r: int)
  {
    FieldsOf(after, bits, r) == if r == record then FieldRows(t, o, fields) else FieldsOf(s, bits, r)
  }

  lemma {:induction false} FieldsPutFieldsOf(t: UnicodeTables, o: NormalizeOptions, s: Store, bits: nat, record: int,
                                            fields: seq<FieldValue>, r: int)
    requires FieldsFit(bits, fields) && (r == record ==> FieldsOf(s, bits, r) == map[])
    ensures WrittenAs(t, o, s, FieldsPut(t, o, s, RangeLo(bits, record), fields), bits, record, fields, r)
  {
    hide Normalized, RangeLo, FieldsOf, Pack, Pow2;
    if fields != [] {
      var front, n := fields[..|fields| - 1], |fields| - 1;
      assert FieldsFit(bits, front);
      FieldsPutFieldsOf(t, o, s, bits, record, front, r);
      var before := FieldsPut(t, o, s, RangeLo(bits, record), front);
      var f, norm := fields[n], Normalized(t, o, fields[n].text);
      FieldsPutStep(t, o, s, RangeLo(bits, record), fields, n);
      assert fields[..n + 1] == fields;
      LoPlusSlot(bits, record, f.slot);
      if norm != "" { PutFieldsOf(before, bits, record, f.slot, norm, f.text, r); }
    }
  }

  /** After `index_record` the record holds exactly its non-empty fields, no stale slot; the others are untouched. */
  lemma RecordPutReplaces(t: UnicodeTables, o: NormalizeOptions, s: Store, bits: nat, item: RecordIndexItem, r: int)
    requires RecordFault(bits, item).None?
    ensures FieldsOf(RecordPut(t, o, s, bits, item), bits, r) ==
              if r == item.recordId then FieldRows(t, o, item.fields) else FieldsOf(s, bits, r)
  {
    RecordAccepted(bits, item);
    ClearedFieldsOf(s, bits, item.recordId, r);
    FieldsPutFieldsOf(t, o, ClearedRange(s, RangeLo(bits, item.recordId), RangeHi(bits, item.recordId)),
                      bits, item.recordId, item.fields, r);
  }

  /** The last item for a record. */
  function LastFor(items: seq<RecordIndexItem>, r: int): Option<RecordIndexItem> {
    if items == [] then None
    else if items[|items| - 1].recordId == r then Some(items[|items| - 1])
    else LastFor(items[..|items| - 1], r)
  }

  /** An accepted batch: the last item for a record decides its fields; other records are untouched. */
  lemma {:induction false} BatchLastWins(t: UnicodeTables, o: NormalizeOptions, s: Store, bits: nat,
                                         items: seq<RecordIndexItem>, r: int)
    requires RecordsFault(bits, items, 0).None?
    ensures FieldsOf(RecordsPut(t, o, s, bits, items), bits, r) ==
              match LastFor(items, r)
              case Some(item) => FieldRows(t, o, item.fields)
              case None => FieldsOf(s, bits, r)
  {
    RecordsAccepted(bits, items, 0);
    if items != [] {
      var front := items[..|items| - 1];
      RecordsAccepted(bits, front, 0);
      BatchLastWins(t, o, s, bits, front, r);
      RecordPutReplaces(t, o, RecordsPut(t, o, s, bits, front), bits, items[|items| - 1], r);
    }
  }

  // ---------------------------------------------------------------------------
  // Re-packing
  // ---------------------------------------------------------------------------

  lemma RepackedSlot(s: Store, from: nat, to: nat, r: int, slot: int)
    requires CanRepack(s, from, to)
    ensures 0 <= slot < Pow2(to) && Pack(to, r, slot) in Repacked(s, from, to).entries <==>
            0 <= slot < Pow2(from) && Pack(from, r, slot) in s.entries
  {
    RepackedKeys(s, from, to);
    if 0 <= slot < Pow2(to) && Pack(to, r, slot) in Repacked(s, from, to).entries {
      var id :| id in s.entries && Repack(from, to, id) == Pack(to, r, slot);
      RepackFaithful(from, to, id);
      UnpackPack(to, r, slot);
      PackUnpack(from, id);
    }
    if 0 <= slot < Pow2(from) && Pack(from, r, slot) in s.entries {
      UnpackPack(from, r, slot);
      assert Repack(from, to, Pack(from, r, slot)) == Pack(to, r, slot);
      assert Fits(from, to, Pack(from, r, slot));
    }
  }

  lemma RepackedValue(s: Store, from: nat, to: nat, id: int)
    requires CanRepack(s, from, to) && id in s.entries
    ensures var moved := Repack(from, to, id);
            && moved in Repacked(s, from, to).entries
            && Repacked(s, from, to).entries[moved] ==
                 Row(s.entries[id].norm, Reverse(s.entries[id].norm), s.entries[id].raw)
  {
    MovedRow(s, StoredRow(id, s.entries[id].norm, s.entries[id].raw), from, to);
  }

  /** Changing the field bits keeps every record's slots with their text. */
  lemma RepackKeepsFields(s: Store, from: nat, to: nat, r: int)
    requires CanRepack(s, from, to) && Agree(s)
    ensures FieldsOf(Repacked(s, from, to), to, r) == FieldsOf(s, from, r)
  {
    var after, before := FieldsOf(Repacked(s, from, to), to, r), FieldsOf(s, from, r);
    forall slot ensures slot in after <==> slot in before {
      RepackedSlot(s, from, to, r, slot);
    }
    forall slot | slot in after ensures after[slot] == before[slot] {
      RepackedSlot(s, from, to, r, slot);
      UnpackPack(from, r, slot);
      RepackedValue(s, from, to, Pack(from, r, slot));
    }
    SameMap(after, before);
  }

  /** The new ids are distinct, in order, and non-negative 64-bit numbers. */
  lemma RepackKeepsOrder(s: Store, from: nat, to: nat)
    requires CanRepack(s, from, to)
    ensures forall id :: id in Repacked(s, from, to).entries ==> 0 <= id <= I64_MAX
    ensures forall x, y :: x in s.entries && y in s.entries ==> (Repack(from, to, x) < Repack(from, to, y) <==> x < y)
  {
    RepackedKeys(s, from, to);
    forall id | id in Repacked(s, from, to).entries ensures 0 <= id <= I64_MAX {
      var x :| x in s.entries && Repack(from, to, x) == id;
      RepackFaithful(from, to, x);
    }
    forall x, y | x in s.entries && y in s.entries ensures Repack(from, to, x) < Repack(from, to, y) <==> x < y {
      RepackOrder(from, to, x, y);
    }
  }

  lemma RepackedFitsBack(s: Store, from: nat, to: nat)
    requires CanRepack(s, from, to) && forall id :: id in s.entries ==> id <= I64_MAX
    ensures CanRepack(Repacked(s, from, to), to, from)
  {
    RepackedKeys(s, from, to);
    forall id | id in Repacked(s, from, to).entries ensures Fits(to, from, id) {
      var x :| x in s.entries && Repack(from, to, x) == id;
      RepackFitsBack(from, to, x);
    }
  }

  lemma RepackedTwiceKeys(s: Store, from: nat, to: nat)
    requires CanRepack(s, from, to) && CanRepack(Repacked(s, from, to), to, from)
    ensures RepackedIds(Repacked(s, from, to), to, from) == s.entries.Keys
  {
    RepackedKeys(s, from, to);
    forall id ensures id in RepackedIds(Repacked(s, from, to), to, from) <==> id in s.entries {
      if id in s.entries {
        RepackFaithful(from, to, id);
        assert Repack(from, to, id) in Repacked(s, from, to).entries;
      }
      if id in RepackedIds(Repacked(s, from, to), to, from) {
        var y :| y in Repacked(s, from, to).entries && Repack(to, from, y) == id;
        var x :| x in s.entries && Repack(from, to, x) == y;
        RepackFaithful(from, to, x);
      }
    }
  }

  /** Changing the field bits and changing them back restores the index. */
  lemma RepackBackRestores(s: Store, from: nat, to: nat)
    requires CanRepack(s, from, to) && Agree(s) && s.bits == Some(from)
    requires forall id :: id in s.entries ==> id <= I64_MAX
    ensures CanRepack(Repacked(s, from, to), to, from)
    ensures Repacked(Repacked(s, from, to), to, from) == s
  {
    RepackedFitsBack(s, from, to);
    var there := Repacked(s, from, to);
    RepackedTwiceKeys(s, from, to);
    RepackedKeys(there, to, from);
    RepackedBackEntries(s, from, to);
    RepackedBackDocs(s, from, to);
  }

  lemma RepackedTwiceAt(s: Store, from: nat, to: nat, id: int)
    requires CanRepack(s, from, to) && Agree(s) && CanRepack(Repacked(s, from, to), to, from)
    requires id in s.entries
    ensures var back := Repacked(Repacked(s, from, to), to, from);
            id in back.entries && back.entries[id] == s.entries[id]
  {
    RepackFaithful(from, to, id);
    RepackedValue(s, from, to, id);
    RepackedValue(Repacked(s, from, to), to, from, Repack(from, to, id));
  }

  lemma RepackedBackEntries(s: Store, from: nat, to: nat)
    requires CanRepack(s, from, to) && Agree(s) && CanRepack(Repacked(s, from, to), to, from)
    ensures Repacked(Repacked(s, from, to), to, from).entries == s.entries
  {
    RepackedTwiceKeys(s, from, to);
    RepackedKeys(Repacked(s, from, to), to, from);
    var back := Repacked(Repacked(s, from, to), to, from).entries;
    forall id | id in back ensures back[id] == s.entries[id] { RepackedTwiceAt(s, from, to, id); }
    SameMap(back, s.entries);
  }

  lemma RepackedBackDocs(s: Store, from: nat, to: nat)
    requires CanRepack(s, from, to) && Agree(s) && CanRepack(Repacked(s, from, to), to, from)
    ensures Repacked(Repacked(s, from, to), to, from).docs == s.docs
  {
    RepackedBackEntries(s, from, to);
    RepackedTwiceKeys(s, from, to);
    RepackedKeys(Repacked(s, from, to), to, from);
    var back := Repacked(Repacked(s, from, to), to, from);
    forall id | id in back.docs ensures back.docs[id] == s.docs[id] {
      assert back.docs[id] == back.entries[id].norm;
    }
    SameMap(back.docs, s.docs);
  }

  // ---------------------------------------------------------------------------
  // Rebuilding records
  // ---------------------------------------------------------------------------

  lemma ReindexedFieldsOf(t: UnicodeTables, p: NormalizeOptions, s: Store, bits: nat, r: int)
    ensures FieldsOf(Reindexed(t, p, s), bits, r) ==
              map slot | slot in FieldsOf(s, bits, r) :: Renormalized(t, p, FieldsOf(s, bits, r)[slot])
  {
  }

  /**
   * Unlike plain documents, a record rebuilt under other options equals the record stored under them exactly
   * when no field is empty under one choice of options only: a dropped field has no row left to rebuild.
   */
  lemma RecordRebuildIsReplay(t: UnicodeTables, o: NormalizeOptions, p: NormalizeOptions, s: Store, bits: nat,
                              item: RecordIndexItem)
    requires RecordFault(bits, item).None?
    ensures FieldsOf(Reindexed(t, p, RecordPut(t, o, s, bits, item)), bits, item.recordId) ==
            FieldsOf(RecordPut(t, p, s, bits, item), bits, item.recordId)
            <==> SameFieldsStored(t, o, p, item.fields)
  {
    RecordAccepted(bits, item);
    RecordPutReplaces(t, o, s, bits, item, item.recordId);
    RecordPutReplaces(t, p, s, bits, item, item.recordId);
    ReindexedFieldsOf(t, p, RecordPut(t, o, s, bits, item), bits, item.recordId);
    var under, over := FieldRows(t, o, item.fields), FieldRows(t, p, item.fields);
    var rebuilt := map slot | slot in under :: Renormalized(t, p, under[slot]);
    RebuiltRows(t, o, p, bits, item.fields, under, over, rebuilt);
  }

  lemma RebuiltRows(t: UnicodeTables, o: NormalizeOptions, p: NormalizeOptions, bits: nat, fields: seq<FieldValue>,
                    under: map<int, Row>, over: map<int, Row>, rebuilt: map<int, Row>)
    requires FieldsFit(bits, fields) && under == FieldRows(t, o, fields) && over == FieldRows(t, p, fields)
    requires rebuilt == map slot | slot in under :: Renormalized(t, p, under[slot])
    ensures rebuilt == over <==> SameFieldsStored(t, o, p, fields)
  {
    hide Normalized, FieldRows;
    FieldRowsMeaning(t, o, bits, fields);
    FieldRowsMeaning(t, p, bits, fields);
    if rebuilt == over {
      forall i | 0 <= i < |fields|
        ensures Normalized(t, o, fields[i].text) == "" <==> Normalized(t, p, fields[i].text) == ""
      {
        OnlyOwnSlot(t, o, bits, fields, i);
        OnlyOwnSlot(t, p, bits, fields, i);
        assert fields[i].slot in rebuilt <==> fields[i].slot in over;
      }
    }
    if SameFieldsStored(t, o, p, fields) {
      forall slot ensures slot in rebuilt <==> slot in over {
        if slot in under {
          var i :| 0 <= i < |fields| && fields[i].slot == slot && Normalized(t, o, fields[i].text) != "";
          assert Normalized(t, p, fields[i].text) != "";
        }
        if slot in over {
          var i :| 0 <= i < |fields| && fields[i].slot == slot && Normalized(t, p, fields[i].text) != "";
          assert Normalized(t, o, fields[i].text) != "";
        }
      }
      forall slot | slot in rebuilt ensures rebuilt[slot] == over[slot] {
        var i :| 0 <= i < |fields| && fields[i].slot == slot && Normalized(t, o, fields[i].text) != "";
        assert Normalized(t, p, fields[i].text) != "";
      }
      SameMap(rebuilt, over);
    }
  }

  lemma OnlyOwnSlot(t: UnicodeTables, o: NormalizeOptions, bits: nat, fields: seq<FieldValue>, i: nat)
    requires FieldsFit(bits, fields) && i < |fields|
    ensures fields[i].slot in FieldRows(t, o, fields) <==> Normalized(t, o, fields[i].text) != ""
  {
    FieldRowsMeaning(t, o, bits, fields);
    if fields[i].slot in FieldRows(t, o, fields) {
      var j :| 0 <= j < |fields| && fields[j].slot == fields[i].slot && Normalized(t, o, fields[j].text) != "";
      assert i == j;
    }
  }

  /** The condition can fail: a blank field is dropped when whitespace collapses, and the rebuilt index lacks it. */
  lemma RebuildMissesDroppedField(t: UnicodeTables)
    requires t.nfkc(" ") == " "
    ensures var plain := NormalizeOptions(false, false, false, false, false, false, false, false);
            var item := RecordIndexItem(0, [FieldValue(0, " ")]);
            var collapsing := plain.(collapseWhitespace := true);
            && RecordFault(8, item).None?
            && FieldsOf(Reindexed(t, plain, RecordPut(t, collapsing, FRESH, 8, item)), 8, 0) !=
               FieldsOf(RecordPut(t, plain, FRESH, 8, item), 8, 0)
  {
    var plain := NormalizeOptions(false, false, false, false, false, false, false, false);
    var item := RecordIndexItem(0, [FieldValue(0, " ")]);
    var collapsing := plain.(collapseWhitespace := true);
    assert IsBlank(" ");
    BlankCollapses(" ");
    assert Normalized(t, collapsing, " ") == "" && Normalized(t, plain, " ") == " ";
    RecordAccepted(8, item);
    MaxRecordFits(8);
    assert item.fields[0] == FieldValue(0, " ");
    assert !SameFieldsStored(t, collapsing, plain, item.fields);
    RecordRebuildIsReplay(t, collapsing, plain, FRESH, 8, item);
  }
}
