/**
 * `(record, slot)` packed into one signed 64-bit document id.
 * Shifting left is doubling `bits` times, shifting right is flooring division by 2^bits,
 * and masking the low bits is the remainder.
 */
module Packing {

  const I64_MAX: int := 0x7FFF_FFFF_FFFF_FFFF
  const MAX_FIELD_BITS: nat := 62

  /** Ids are signed 64-bit numbers. */
  type i64 = x: int | IsI64(x)

  predicate IsI64(x: int) {
    -0x8000_0000_0000_0000 <= x <= 0x7FFF_FFFF_FFFF_FFFF
  }

  function Pow2(n: nat): (r: nat)
    ensures r > 0
  {
    if n == 0 then 1 else 2 * Pow2(n - 1)
  }

  predicate ValidBits(bits: int) {
    1 <= bits <= MAX_FIELD_BITS
  }

  function MaxRecordId(bits: nat): int {
    I64_MAX / Pow2(bits)
  }

  function RecordOf(bits: nat, id: int): int {
    id / Pow2(bits)
  }

  /** The low bits, narrowed to eight. */
  function SlotOf(bits: nat, id: int): int {
    id % Pow2(bits) % 256
  }

  function LowBits(bits: nat, id: int): (slot: int)
    ensures 0 <= slot < Pow2(bits)
  {
    id % Pow2(bits)
  }

  function ShiftLeft(x: int, bits: nat): int {
    if bits == 0 then x else 2 * ShiftLeft(x, bits - 1)
  }

  lemma {:induction false} ShiftIsProduct(x: int, bits: nat)
    ensures ShiftLeft(x, bits) == x * Pow2(bits)
  {
    if bits > 0 { ShiftIsProduct(x, bits - 1); }
  }

  function Pack(bits: nat, record: int, slot: int): int {
    ShiftLeft(record, bits) + slot
  }

  /** The inclusive id range a record owns. */
  function RangeLo(bits: nat, record: int): int {
    Pack(bits, record, 0)
  }

  function RangeHi(bits: nat, record: int): int {
    Pack(bits, record, Pow2(bits) - 1)
  }

  predicate ValidRecord(bits: nat, record: int) {
    0 <= record <= MaxRecordId(bits)
  }

  // ---------------------------------------------------------------------------
  // Arithmetic
  // ---------------------------------------------------------------------------

  lemma MulNonNegative(d: int, p: int)
    requires 0 <= d && 0 <= p
    ensures 0 <= d * p
  {
  }

  /** A larger multiple of `p` is larger by at least `p`. */
  lemma MulGap(a: int, b: int, p: int)
    requires a < b && 0 <= p
    ensures a * p + p <= b * p
  {
    MulNonNegative(b - a - 1, p);
    assert (b - a - 1) * p == b * p - a * p - p;
  }

  lemma DivModUnique(r: int, s: int, p: int)
    requires 0 <= s < p
    ensures (r * p + s) / p == r && (r * p + s) % p == s
  {
    var n := r * p + s;
    var q := n / p;
    assert n == q * p + n % p;
    if q < r {
      MulGap(q, r, p);
    } else if q > r {
      MulGap(r, q, p);
    }
  }

  lemma {:induction false} Pow2Add(a: nat, b: nat)
    ensures Pow2(a + b) == Pow2(a) * Pow2(b)
  {
    if a > 0 { Pow2Add(a - 1, b); }
  }

  lemma {:induction false} Pow2Of63()
    ensures Pow2(63) == I64_MAX + 1
  {
    assert Pow2(7) == 128;
    Pow2Add(7, 7);
    Pow2Add(7, 14);
    Pow2Add(21, 21);
    Pow2Add(42, 21);
    assert Pow2(14) == 0x4000 && Pow2(21) == 0x20_0000;
    assert Pow2(42) == 0x400_0000_0000;
  }

  lemma LastOfProduct(p: int, q: int)
    ensures p * q - 1 == (q - 1) * p + (p - 1)
  {
  }

  /** The largest record id is 2^(63 - bits) - 1, and its whole slot range still fits. */
  lemma MaxRecordFits(bits: nat)
    requires ValidBits(bits)
    ensures MaxRecordId(bits) == Pow2(63 - bits) - 1
    ensures RangeHi(bits, MaxRecordId(bits)) == I64_MAX
  {
    Pow2Of63();
    Pow2Add(bits, 63 - bits);
    var p, q := Pow2(bits), Pow2(63 - bits);
    LastOfProduct(p, q);
    DivModUnique(q - 1, p - 1, p);
    ShiftIsProduct(MaxRecordId(bits), bits);
  }

  // ---------------------------------------------------------------------------
  // Packing and unpacking are inverse, order preserving and in range
  // ---------------------------------------------------------------------------

  lemma UnpackPack(bits: nat, record: int, slot: int)
    requires 0 <= slot < Pow2(bits)
    ensures RecordOf(bits, Pack(bits, record, slot)) == record
    ensures LowBits(bits, Pack(bits, record, slot)) == slot
    ensures SlotOf(bits, Pack(bits, record, slot)) == slot % 256
  {
    ShiftIsProduct(record, bits);
    DivModUnique(record, slot, Pow2(bits));
  }

  lemma PackUnpack(bits: nat, id: int)
    ensures Pack(bits, RecordOf(bits, id), LowBits(bits, id)) == id
  {
    ShiftIsProduct(RecordOf(bits, id), bits);
  }

  lemma PackInRange(bits: nat, record: int, slot: int)
    requires ValidBits(bits) && ValidRecord(bits, record) && 0 <= slot < Pow2(bits)
    ensures 0 <= Pack(bits, record, slot) <= I64_MAX
    ensures RangeLo(bits, record) <= Pack(bits, record, slot) <= RangeHi(bits, record)
  {
    MaxRecordFits(bits);
    ShiftIsProduct(record, bits);
    ShiftIsProduct(MaxRecordId(bits), bits);
    MulNonNegative(record, Pow2(bits));
    if record < MaxRecordId(bits) { MulGap(record, MaxRecordId(bits), Pow2(bits)); }
  }

  lemma RowMajor(p: int, r: int, s: int, r': int, s': int)
    requires 0 <= s < p && 0 <= s' < p
    ensures r * p + s < r' * p + s' <==> r < r' || (r == r' && s < s')
  {
    if r < r' {
      MulGap(r, r', p);
    } else if r > r' {
      MulGap(r', r, p);
    }
  }

  /** A document id lies in a record's range exactly when it unpacks to that record. */
  lemma RangeIsRecord(bits: nat, record: int, id: int)
    ensures RangeLo(bits, record) <= id <= RangeHi(bits, record) <==> RecordOf(bits, id) == record
  {
    PackUnpack(bits, id);
    PackOrder(bits, RecordOf(bits, id), LowBits(bits, id), record, 0);
    PackOrder(bits, record, Pow2(bits) - 1, RecordOf(bits, id), LowBits(bits, id));
  }

  /** Ids compare as (record, slot) pairs do. */
  lemma PackOrder(bits: nat, r: int, s: int, r': int, s': int)
    requires 0 <= s < Pow2(bits) && 0 <= s' < Pow2(bits)
    ensures Pack(bits, r, s) < Pack(bits, r', s') <==> r < r' || (r == r' && s < s')
  {
    ShiftIsProduct(r, bits);
    ShiftIsProduct(r', bits);
    RowMajor(Pow2(bits), r, s, r', s');
  }

  lemma RecordMonotone(bits: nat, id: int, id': int)
    requires id <= id'
    ensures RecordOf(bits, id) <= RecordOf(bits, id')
  {
    PackUnpack(bits, id);
    PackUnpack(bits, id');
    PackOrder(bits, RecordOf(bits, id'), LowBits(bits, id'), RecordOf(bits, id), LowBits(bits, id));
  }

  // ---------------------------------------------------------------------------
  // Re-packing under another number of field bits
  // ---------------------------------------------------------------------------

  function Repack(from: nat, to: nat, id: int): int {
    Pack(to, RecordOf(from, id), LowBits(from, id))
  }

  /** The id's record and slot fit the new encoding. */
  predicate Fits(from: nat, to: nat, id: int) {
    id >= 0 && LowBits(from, id) < Pow2(to) && RecordOf(from, id) <= MaxRecordId(to)
  }

  lemma RecordNonNegative(bits: nat, id: int)
    requires id >= 0
    ensures RecordOf(bits, id) >= 0
  {
    PackUnpack(bits, id);
    ShiftIsProduct(RecordOf(bits, id), bits);
    if RecordOf(bits, id) < 0 { MulGap(RecordOf(bits, id), 0, Pow2(bits)); }
  }

  /** Re-packing keeps record and slot, stays within 64 bits, keeps the order, and can be undone. */
  lemma RepackFaithful(from: nat, to: nat, id: int)
    requires ValidBits(from) && ValidBits(to) && Fits(from, to, id)
    ensures RecordOf(to, Repack(from, to, id)) == RecordOf(from, id)
    ensures LowBits(to, Repack(from, to, id)) == LowBits(from, id)
    ensures SlotOf(to, Repack(from, to, id)) == SlotOf(from, id)
    ensures 0 <= Repack(from, to, id) <= I64_MAX
    ensures Repack(to, from, Repack(from, to, id)) == id
  {
    RecordNonNegative(from, id);
    UnpackPack(to, RecordOf(from, id), LowBits(from, id));
    PackInRange(to, RecordOf(from, id), LowBits(from, id));
    PackUnpack(from, id);
  }

  /** No non-negative 64-bit id lies beyond the largest record. */
  lemma RecordsEnd(bits: nat, id: int)
    requires ValidBits(bits) && 0 <= id <= I64_MAX
    ensures ValidRecord(bits, RecordOf(bits, id))
  {
    RecordNonNegative(bits, id);
    MaxRecordFits(bits);
    RecordMonotone(bits, id, RangeHi(bits, MaxRecordId(bits)));
    UnpackPack(bits, MaxRecordId(bits), Pow2(bits) - 1);
  }

  /** The record ids accepted are those of the non-negative 64-bit ids. */
  lemma ValidRecordExactly(bits: nat, record: int)
    requires ValidBits(bits)
    ensures ValidRecord(bits, record) <==> exists p :: 0 <= p <= 0x7FFF_FFFF_FFFF_FFFF && RecordOf(bits, p) == record
  {
    if ValidRecord(bits, record) {
      UnpackPack(bits, record, 0);
      PackInRange(bits, record, 0);
    }
    if p :| 0 <= p <= 0x7FFF_FFFF_FFFF_FFFF && RecordOf(bits, p) == record { RecordsEnd(bits, p); }
  }

  /**
   * An id fits another encoding exactly when it is non-negative and some non-negative 64-bit id has its record and slot
   * over there, which is then what it is re-packed to.
   */
  lemma FitsExactly(from: nat, to: nat, id: int)
    requires ValidBits(from) && ValidBits(to)
    ensures Fits(from, to, id) <==>
            id >= 0 && exists p ::
              && 0 <= p <= 0x7FFF_FFFF_FFFF_FFFF
              && RecordOf(to, p) == RecordOf(from, id) && LowBits(to, p) == LowBits(from, id)
    ensures forall p :: RecordOf(to, p) == RecordOf(from, id) && LowBits(to, p) == LowBits(from, id) ==>
              p == Repack(from, to, id)
  {
    if Fits(from, to, id) {
      RepackFaithful(from, to, id);
      assert RecordOf(to, Repack(from, to, id)) == RecordOf(from, id);
    }
    if p :| 0 <= p <= 0x7FFF_FFFF_FFFF_FFFF && RecordOf(to, p) == RecordOf(from, id)
            && LowBits(to, p) == LowBits(from, id) {
      RecordsEnd(to, p);
    }
    forall p | RecordOf(to, p) == RecordOf(from, id) && LowBits(to, p) == LowBits(from, id)
      ensures p == Repack(from, to, id)
    {
      PackUnpack(to, p);
    }
  }

  lemma RepackFitsBack(from: nat, to: nat, id: int)
    requires ValidBits(from) && ValidBits(to) && Fits(from, to, id) && id <= I64_MAX
    ensures Fits(to, from, Repack(from, to, id))
  {
    RepackFaithful(from, to, id);
    RecordsEnd(from, id);
  }

  lemma RepackOrder(from: nat, to: nat, id: int, id': int)
    requires Fits(from, to, id) && Fits(from, to, id')
    ensures Repack(from, to, id) < Repack(from, to, id') <==> id < id'
  {
    PackUnpack(from, id);
    PackUnpack(from, id');
    PackOrder(from, RecordOf(from, id), LowBits(from, id), RecordOf(from, id'), LowBits(from, id'));
    PackOrder(to, RecordOf(from, id), LowBits(from, id), RecordOf(from, id'), LowBits(from, id'));
  }
}
