/**
 * Component identifiers of the unsafe 4becs entity-component scheme.
 *
 * An identifier is one 64-bit word (`u64bit`): the low IDX_BITS bits hold an
 * index (which word of an entity's mask the component lives in) and exactly
 * one of the remaining BF_BITS high bits is set (which bit of that word).
 * This module fixes the constants, packs a cursor `(idx, bit)` into an
 * identifier and decodes identifiers back into cursors.
 *
 * The constants and the cursor are `uint64_t` in the program, so they are
 * `bv64` here; sizes and counts that the model only reasons about are `nat`.
 */
module Ids {

  /** Bits of an identifier used for the index. */
  const IDX_BITS: bv64 := 2
  /** Largest index, `(1 << IDX_BITS) - 1`; also the mask selecting the index field. */
  const MAX_IDX: bv64 := 3
  /** Bits of each sub-bitfield, `64 - IDX_BITS`. */
  const BF_BITS: bv64 := 62
  /** Number of words in an entity's mask, `MAX_IDX + 1`. */
  const MASK_WORDS: nat := 4
  /** How many identifiers the cursor can hand out: `(MAX_IDX + 1) * BF_BITS`. */
  const CAPACITY: nat := 248

  lemma ConstantsAgree()
    ensures MAX_IDX == (1 << IDX_BITS) - 1 && BF_BITS == 64 - IDX_BITS
    ensures MASK_WORDS == MAX_IDX as nat + 1 && CAPACITY == MASK_WORDS * BF_BITS as nat
  {
  }

  /**
   * A component identifier: the word a component type's static member `b`
   * holds. It is wrapped in a datatype so that lists and maps of identifiers
   * compare by the word they hold.
   */
  datatype CompId = CompId(word: bv64)

  /** Index field of an identifier, `id & MAX_IDX`, as an array index. */
  function Slot(id: CompId): (s: nat)
    ensures s < MASK_WORDS
  {
    var w := id.word & MAX_IDX;
    if w == 0 then 0 else if w == 1 then 1 else if w == 2 then 2 else 3
  }

  /** Bit-field part of an identifier, `id & ~MAX_IDX`. */
  function High(id: CompId): (h: bv64)
    ensures h & MAX_IDX == 0
  {
    id.word & !MAX_IDX
  }

  /** Exactly one bit of `x` is set. */
  predicate OneBit(x: bv64)
  {
    x != 0 && x & (x - 1) == 0
  }

  /** A well-formed identifier: exactly one bit set above the index field. */
  predicate IsId(id: CompId)
  {
    OneBit(High(id))
  }

  /** A cursor `getbit` can pack: an index up to MAX_IDX and a bit below BF_BITS. */
  predicate InRange(idx: bv64, bit: bv64)
  {
    idx <= MAX_IDX && bit < BF_BITS
  }

  /** The word `getbit` returns for the cursor `(idx, bit)`: `idx | 1 << (IDX_BITS + bit)`. */
  function Pack(idx: bv64, bit: bv64): CompId
    requires InRange(idx, bit)
  {
    CompId(idx | (1 << (IDX_BITS + bit)))
  }

  /** A packed cursor is a well-formed identifier whose fields hold the index and the bit. */
  lemma PackFields(idx: bv64, bit: bv64)
    requires InRange(idx, bit)
    ensures IsId(Pack(idx, bit))
    ensures Pack(idx, bit).word & MAX_IDX == idx && Slot(Pack(idx, bit)) == idx as nat
    ensures High(Pack(idx, bit)) == 1 << (IDX_BITS + bit)
  {
  }

  /** Two well-formed identifiers at the same index overlap exactly when they are equal. */
  lemma OverlapMeansEqual(a: CompId, b: CompId)
    requires IsId(a) && IsId(b) && Slot(a) == Slot(b)
    ensures High(a) & High(b) != 0 <==> a == b
  {
    SameSlotSameIndex(a, b);
  }

  lemma SameSlotSameIndex(a: CompId, b: CompId)
    requires Slot(a) == Slot(b)
    ensures a.word & MAX_IDX == b.word & MAX_IDX
  {
  }

  /** Position of the lowest set bit of `x` at or above `from` (63 when there is none). */
  function LowBit(x: bv64, from: bv64): (k: bv64)
    requires from < 64
    ensures from <= k < 64
    decreases 64 - from
  {
    if from == 63 || x & (1 << from) != 0 then from else LowBit(x, from + 1)
  }

  /** Recovers the cursor `(idx, bit)` from a word, or None when it is not a well-formed identifier. */
  function Unpack(id: CompId): (r: Option<(bv64, bv64)>)
    ensures r.Some? <==> IsId(id)
    ensures r.Some? ==> InRange(r.value.0, r.value.1)
  {
    if IsId(id) then
      LowBitAboveIndex(High(id));
      Some((id.word & MAX_IDX, LowBit(High(id), IDX_BITS) - IDX_BITS))
    else None
  }

  lemma LowBitAboveIndex(x: bv64)
    requires x & MAX_IDX == 0
    ensures IDX_BITS <= LowBit(x, IDX_BITS)
  {
  }

  /** The scan finds the single set bit of `1 << k`. */
  lemma {:induction false} LowBitOfPower(k: bv64, from: bv64)
    requires from <= k < 64
    ensures LowBit(1 << k, from) == k
    decreases 64 - from
  {
    if from < k {
      LowBitOfPower(k, from + 1);
    }
  }

  /** Bit `k` of `x` is set. */
  predicate BitSet(x: bv64, k: bv64)
    requires k < 64
  {
    x & (1 << k) != 0
  }

  /** No bit of `x` below `k` is set. */
  predicate LowClear(x: bv64, k: bv64)
    requires k < 64
  {
    x & ((1 << k) - 1) == 0
  }

  /** When no bit below `from` is set, the scan lands on the single set bit. */
  lemma {:induction false} LowBitOfOneBit(x: bv64, from: bv64)
    requires OneBit(x) && from < 64 && LowClear(x, from)
    ensures x == 1 << LowBit(x, from)
    decreases 64 - from, 1
  {
    if from == 63 {
      TopBitOnly(x);
    } else if BitSet(x, from) {
      OneBitAt(x, from);
    } else {
      LowBitPassOver(x, from);
    }
  }

  /** The scan passes over a clear bit and goes on from the next one. */
  lemma {:induction false} LowBitPassOver(x: bv64, from: bv64)
    requires OneBit(x) && from < 63 && LowClear(x, from) && !BitSet(x, from)
    ensures x == 1 << LowBit(x, from)
    decreases 64 - from, 0
  {
    LowBitsClearExtend(x, from);
    LowBitOfOneBit(x, from + 1);
    LowBitSkips(x, from);
  }

  lemma LowBitSkips(x: bv64, from: bv64)
    requires from < 63 && !BitSet(x, from)
    ensures LowBit(x, from) == LowBit(x, from + 1)
  {
  }

  lemma LowBitsClearExtend(x: bv64, from: bv64)
    requires from < 63 && LowClear(x, from) && !BitSet(x, from)
    ensures LowClear(x, from + 1)
  {
  }

  lemma OneBitAt(x: bv64, from: bv64)
    requires from < 64 && OneBit(x) && LowClear(x, from) && BitSet(x, from)
    ensures x == 1 << from
  {
  }

  lemma TopBitOnly(x: bv64)
    requires x != 0 && LowClear(x, 63)
    ensures x == 1 << 63
  {
  }

  /** Decoding a packed cursor gives the cursor back. */
  lemma UnpackPack(idx: bv64, bit: bv64)
    requires InRange(idx, bit)
    ensures Unpack(Pack(idx, bit)) == Some((idx, bit))
  {
    PackFields(idx, bit);
    LowBitOfPower(IDX_BITS + bit, IDX_BITS);
  }

  /** Packing a decoded identifier gives the identifier back. */
  lemma PackUnpack(id: CompId)
    requires IsId(id)
    ensures Unpack(id).Some? && Pack(Unpack(id).value.0, Unpack(id).value.1) == id
  {
    LowBitOfOneBit(High(id), IDX_BITS);
  }

  /** Distinct cursors give distinct identifiers. */
  lemma PackInjective(i1: bv64, b1: bv64, i2: bv64, b2: bv64)
    requires InRange(i1, b1) && InRange(i2, b2)
    ensures Pack(i1, b1) == Pack(i2, b2) <==> i1 == i2 && b1 == b2
  {
    PackFields(i1, b1);
    PackFields(i2, b2);
  }

  datatype Option<+T> = None | Some(value: T)
}
