/**
 * The process-wide identifier allocator (`becs::CompRegistry::getbit`) and
 * the per-type memoisation the `COMP` macro performs: the first time a
 * component type asks for its identifier, `getbit` runs once and the result
 * is cached in the type's static member `b`; every later request reads the
 * cached word.
 */
module Registry {
  import opened Ids

  /** Component types are known to the model by name only. */
  type TypeName = string

  /** The one failure `getbit` can report: its capacity assertion fired. */
  datatype Error = CapacityExceeded

  datatype Result<+T> = Ok(value: T) | Err(error: Error)

  /** The two function-local statics of `getbit`, both `uint64_t`. */
  datatype Cursor = Cursor(idx: bv64, bit: bv64)

  /** A cursor `getbit` can stand at between calls: `bit` may have reached BF_BITS. */
  predicate CursorOk(c: Cursor)
  {
    c.idx <= MAX_IDX && c.bit <= BF_BITS
  }

  /**
   * One call of `getbit`: a used-up word rolls the cursor over to the next
   * index, rolling past MAX_IDX trips the assertion (which ends the process,
   * so the cursor stays put), otherwise the cursor is packed and `bit`
   * advances.
   */
  function Step(c: Cursor): (r: (Result<CompId>, Cursor))
    requires CursorOk(c)
    ensures CursorOk(r.1)
    ensures r.0.Err? <==> c == Cursor(MAX_IDX, BF_BITS)
    ensures r.0.Err? ==> r.1 == c
  {
    var c' := if c.bit == BF_BITS then Cursor(c.idx + 1, 0) else c;
    if c'.idx > MAX_IDX then (Err(CapacityExceeded), c)
    else (Ok(Pack(c'.idx, c'.bit)), Cursor(c'.idx, c'.bit + 1))
  }

  /** The cursor after `n` calls, starting from the zero-initialised statics. */
  function Run(n: nat): (c: Cursor)
    ensures CursorOk(c)
  {
    if n == 0 then Cursor(0, 0) else Step(Run(n - 1)).1
  }

  /** What call number `n` (counting from 0) returns. */
  function NthId(n: nat): Result<CompId>
  {
    Step(Run(n)).0
  }

  /** How many identifiers a cursor standing at `c` has handed out. */
  function Issued(c: Cursor): (n: nat)
    requires CursorOk(c)
    ensures n <= CAPACITY
    ensures n == CAPACITY <==> c == Cursor(MAX_IDX, BF_BITS)
  {
    c.idx as nat * BF_BITS as nat + c.bit as nat
  }

  /** One more bit in the same word is one more identifier handed out. */
  lemma IssuedNextBit(idx: bv64, bit: bv64)
    requires idx <= MAX_IDX && bit < BF_BITS
    ensures Issued(Cursor(idx, bit + 1)) == Issued(Cursor(idx, bit)) + 1
  {
  }

  /** A used-up word and the start of the next one have handed out the same identifiers. */
  lemma IssuedNextIdx(idx: bv64)
    requires idx < MAX_IDX
    ensures Issued(Cursor(idx + 1, 0)) == Issued(Cursor(idx, BF_BITS))
  {
  }

  /** Every successful call hands out exactly one more identifier. */
  lemma StepIssues(c: Cursor)
    requires CursorOk(c) && Step(c).0.Ok?
    ensures Issued(Step(c).1) == Issued(c) + 1
  {
    if c.bit == BF_BITS {
      IssuedNextIdx(c.idx);
      IssuedNextBit(c.idx + 1, 0);
    } else {
      IssuedNextBit(c.idx, c.bit);
    }
  }

  /** The first CAPACITY calls succeed, each handing out one identifier. */
  lemma {:induction false} RunIssued(n: nat)
    requires n <= CAPACITY
    ensures Issued(Run(n)) == n
  {
    if n > 0 {
      RunIssued(n - 1);
      StepIssues(Run(n - 1));
    }
  }

  /** Once the assertion has fired the cursor never moves again. */
  lemma {:induction false} RunStuck(n: nat)
    requires n >= CAPACITY
    ensures Run(n) == Cursor(MAX_IDX, BF_BITS)
  {
    if n == CAPACITY {
      RunIssued(n);
    } else {
      RunStuck(n - 1);
    }
  }

  /** Capacity: exactly the first CAPACITY calls succeed; every later one trips the assertion. */
  lemma Capacity(n: nat)
    ensures NthId(n).Ok? <==> n < CAPACITY
  {
    if n < CAPACITY {
      RunIssued(n);
    } else {
      RunStuck(n);
    }
  }

  /** The cursor a call packs: its own, rolled over to the next index when the word is used up. */
  function Packed(c: Cursor): (p: Cursor)
    requires CursorOk(c) && c != Cursor(MAX_IDX, BF_BITS)
    ensures InRange(p.idx, p.bit) && Step(c).0 == Ok(Pack(p.idx, p.bit))
  {
    if c.bit == BF_BITS then Cursor(c.idx + 1, 0) else c
  }

  /** The cursor packed by call `n` has handed out `n` identifiers. */
  lemma PackedIssued(n: nat)
    requires n < CAPACITY
    ensures Run(n) != Cursor(MAX_IDX, BF_BITS) && Issued(Packed(Run(n))) == n
  {
    RunIssued(n);
    if Run(n).bit == BF_BITS {
      IssuedNextIdx(Run(n).idx);
    }
  }

  /**
   * Call `n` packs index `n / BF_BITS` and bit `n % BF_BITS`: the cursor runs
   * through the bits of index 0, then those of index 1, and so on.
   */
  lemma NthIdLexicographic(n: nat)
    requires n < CAPACITY
    ensures InRange((n / BF_BITS as nat) as bv64, (n % BF_BITS as nat) as bv64)
    ensures NthId(n) == Ok(Pack((n / BF_BITS as nat) as bv64, (n % BF_BITS as nat) as bv64))
  {
    PackedIssued(n);
    DivModCursor(Packed(Run(n)), n);
  }

  /** The in-range cursor that has handed out `n` identifiers is `(n / BF_BITS, n % BF_BITS)`. */
  lemma DivModCursor(p: Cursor, n: nat)
    requires InRange(p.idx, p.bit) && Issued(p) == n
    ensures p.idx == (n / BF_BITS as nat) as bv64 && p.bit == (n % BF_BITS as nat) as bv64
  {
    DivModOf(p.idx as nat, p.bit as nat, n);
    WordRoundTrip(p.idx);
    WordRoundTrip(p.bit);
  }

  lemma DivModOf(i: nat, b: nat, n: nat)
    requires b < 62 && n == i * 62 + b
    ensures n / 62 == i && n % 62 == b
  {
  }

  lemma WordRoundTrip(x: bv64)
    ensures (x as nat) as bv64 == x
  {
  }

  /** No two successful calls hand out the same identifier. */
  lemma NthIdInjective(m: nat, n: nat)
    requires NthId(m).Ok? && NthId(n).Ok?
    ensures NthId(m) == NthId(n) <==> m == n
  {
    Capacity(m);
    Capacity(n);
    PackedIssued(m);
    PackedIssued(n);
    var p, q := Packed(Run(m)), Packed(Run(n));
    PackInjective(p.idx, p.bit, q.idx, q.bit);
  }

  /** Every identifier handed out is well formed and decodes to the cursor it was packed from. */
  lemma NthIdWellFormed(n: nat)
    requires NthId(n).Ok?
    ensures IsId(NthId(n).value) && Unpack(NthId(n).value).Some?
  {
    Capacity(n);
    PackedIssued(n);
    var p := Packed(Run(n));
    PackFields(p.idx, p.bit);
  }

  /** A cursor `getbit` can leave behind: only the initial cursor has a zero `bit`. */
  predicate Reachable(c: Cursor)
  {
    CursorOk(c) && (c.bit > 0 || c.idx == 0)
  }

  /** Every reachable cursor is the one left after as many calls as it has handed out identifiers. */
  lemma {:induction false} RunAt(c: Cursor)
    requires Reachable(c)
    ensures Run(Issued(c)) == c
    decreases Issued(c), 1
  {
    if c.bit > 1 {
      RunAtNextBit(c.idx, c.bit - 1);
    } else if c.bit == 1 && c.idx > 0 {
      RunAtNextIdx(c.idx - 1);
    } else if c.bit == 1 {
      assert Issued(c) == 1;
    } else {
      assert Issued(c) == 0;
    }
  }

  lemma {:induction false} RunAtNextBit(idx: bv64, bit: bv64)
    requires idx <= MAX_IDX && 0 < bit < BF_BITS
    ensures Run(Issued(Cursor(idx, bit + 1))) == Cursor(idx, bit + 1)
    decreases Issued(Cursor(idx, bit + 1)), 0
  {
    IssuedNextBit(idx, bit);
    RunAt(Cursor(idx, bit));
  }

  lemma {:induction false} RunAtNextIdx(idx: bv64)
    requires idx < MAX_IDX
    ensures Run(Issued(Cursor(idx + 1, 1))) == Cursor(idx + 1, 1)
    decreases Issued(Cursor(idx + 1, 1)), 0
  {
    IssuedNextIdx(idx);
    IssuedNextBit(idx + 1, 0);
    RunAt(Cursor(idx, BF_BITS));
  }

  /** Call 1 takes bit 0 of index 0, the word 4. */
  lemma FirstCall()
    ensures NthId(0) == Ok(CompId(4))
  {
  }

  /** Call 62 takes the top bit of index 0, the last one index 0 has. */
  lemma FirstWordFull()
    ensures NthId(61) == Ok(CompId(1 << 63))
  {
    assert Issued(Cursor(0, 61)) == 61;
    RunAt(Cursor(0, 61));
  }

  /** Call 63 opens index 1 at bit 0, the word 5, which decodes to the cursor `(1, 0)`. */
  lemma SecondWordOpens()
    ensures NthId(62) == Ok(CompId(5)) && Unpack(CompId(5)) == Some((1, 0))
  {
    RunAt(Cursor(0, BF_BITS));
    assert Issued(Cursor(0, BF_BITS)) == 62;
    UnpackPack(1, 0);
  }

  /** Call 70 lands in index 1, at bit 7. */
  lemma SecondWordFills()
    ensures NthId(69) == Ok(CompId(1 | (1 << 9)))
  {
    assert Issued(Cursor(1, 7)) == 69;
    RunAt(Cursor(1, 7));
  }

  /** Call 248, the last to succeed, takes the top bit of index 3. */
  lemma LastCall()
    ensures NthId(CAPACITY - 1) == Ok(CompId(3 | (1 << 63)))
  {
    RunAt(Cursor(MAX_IDX, BF_BITS - 1));
    assert Issued(Cursor(MAX_IDX, BF_BITS - 1)) == 247;
  }

  /**
   * `getbit` as written when the assertion is compiled out (NDEBUG): the
   * rollover past MAX_IDX goes ahead and the overflowing index is ORed into
   * the word.
   */
  function UncheckedStep(c: Cursor): (r: (CompId, Cursor))
    requires CursorOk(c)
    ensures r.1.bit == (if c.bit == BF_BITS then 0 else c.bit) + 1
  {
    var c' := if c.bit == BF_BITS then Cursor(c.idx + 1, 0) else c;
    (CompId(c'.idx | (1 << (IDX_BITS + c'.bit))), Cursor(c'.idx, c'.bit + 1))
  }

  /** Wherever the checked call succeeds, the unchecked one returns the same word and cursor. */
  lemma UncheckedAgrees(c: Cursor)
    requires CursorOk(c) && Step(c).0.Ok?
    ensures Step(c) == (Ok(UncheckedStep(c).0), UncheckedStep(c).1)
  {
  }

  /**
   * The unchecked calls run exactly like the checked ones for the first
   * CAPACITY calls, which leave the cursor at `(MAX_IDX, BF_BITS)`; there the
   * 249th call hands out the word of the first call again.
   */
  lemma UncheckedCollision()
    ensures Run(CAPACITY) == Cursor(MAX_IDX, BF_BITS)
    ensures UncheckedStep(Run(CAPACITY)).0 == CompId(4) && NthId(0) == Ok(CompId(4))
  {
    assert UncheckedStep(Cursor(MAX_IDX, BF_BITS)).0 == CompId(4);
    assert NthId(0) == Ok(CompId(4));
    RunStuck(CAPACITY);
  }

  /** Every type in `order` is cached under the identifier its first request was handed. */
  ghost predicate Memoised(ids: map<TypeName, CompId>, order: seq<TypeName>)
  {
    && (forall i, j :: 0 <= i < j < |order| ==> order[i] != order[j])
    && (forall t :: t in ids <==> t in order)
    && forall k :: 0 <= k < |order| ==> order[k] in ids && NthId(k) == Ok(ids[order[k]])
  }

  /** Caching the identifier of the next call for a new type keeps the cache consistent. */
  lemma MemoisedExtend(ids: map<TypeName, CompId>, order: seq<TypeName>, t: TypeName, id: CompId)
    requires Memoised(ids, order) && t !in ids
    requires NthId(|order|) == Ok(id)
    ensures Memoised(ids[t := id], order + [t])
  {
    var ids', order' := ids[t := id], order + [t];
    assert t !in order;
    forall u
      ensures u in ids' <==> u in order'
    {
      assert u in order' <==> u in order || u == t;
    }
    forall k | 0 <= k < |order'|
      ensures order'[k] in ids' && NthId(k) == Ok(ids'[order'[k]])
    {
      if k < |order| {
        assert order'[k] == order[k] && order[k] != t;
      }
    }
  }

  /**
   * One first request, in terms of values: the call made at the cursor after
   * `|order|` calls returns call `|order|`; on success the cursor has made
   * one call more and caching the word for `t` keeps the cache consistent,
   * on failure the cursor has not moved.
   */
  lemma CacheStep(ids: map<TypeName, CompId>, order: seq<TypeName>, t: TypeName, before: Cursor, r: Result<CompId>, after: Cursor)
    requires Memoised(ids, order) && t !in ids && Run(|order|) == before
    requires CursorOk(before) && (r, after) == Step(before)
    ensures r == NthId(|order|)
    ensures r.Ok? ==> Run(|order + [t]|) == after && Memoised(ids[t := r.value], order + [t])
    ensures r.Err? ==> after == before
  {
    if r.Ok? {
      MemoisedExtend(ids, order, t, r.value);
      assert |order + [t]| == |order| + 1;
    }
  }

  /** Different component types never share an identifier. */
  lemma MemoisedIdsUnique(ids: map<TypeName, CompId>, order: seq<TypeName>, s: TypeName, t: TypeName)
    requires Memoised(ids, order)
    requires s in ids && t in ids
    ensures ids[s] == ids[t] <==> s == t
  {
    var i :| 0 <= i < |order| && order[i] == s;
    var j :| 0 <= j < |order| && order[j] == t;
    NthIdInjective(i, j);
  }

  /** Every cached identifier is well formed and decodes to a cursor. */
  lemma MemoisedIdsWellFormed(ids: map<TypeName, CompId>, order: seq<TypeName>, t: TypeName)
    requires Memoised(ids, order)
    requires t in ids
    ensures IsId(ids[t]) && Unpack(ids[t]).Some?
  {
    var i :| 0 <= i < |order| && order[i] == t;
    NthIdWellFormed(i);
  }

  class CompRegistry {
    /** The cursor: `getbit`'s two function-local statics. */
    var idx: bv64
    var bit: bv64
    /** The `b` member `COMP` gives each component type that has asked so far. */
    var ids: map<TypeName, CompId>
    /** The types in the order they first asked. */
    ghost var order: seq<TypeName>

    ghost predicate Valid()
      reads this
    {
      && Run(|order|) == Cursor(idx, bit)
      && Memoised(ids, order)
    }

    /** The statics before any component type has been declared. */
    constructor ()
      ensures Valid()
      ensures idx == 0 && bit == 0 && ids == map[] && order == []
    {
      idx, bit := 0, 0;
      ids := map[];
      order := [];
    }

    /**
     * Hands out the next identifier. When the current word's BF_BITS bits
     * are used up the cursor moves to the next index; moving past MAX_IDX
     * trips the assertion, which ends the process, so the cursor is left
     * where it is.
     */
    method GetBit() returns (r: Result<CompId>)
      requires CursorOk(Cursor(idx, bit))
      modifies this`idx, this`bit
      ensures CursorOk(Cursor(idx, bit))
      ensures (r, Cursor(idx, bit)) == Step(old(Cursor(idx, bit)))
    {
      if bit == BF_BITS {
        if idx == MAX_IDX {
          return Err(CapacityExceeded);
        }
        bit := 0;
        idx := idx + 1;
      }
      r := Ok(Pack(idx, bit));
      bit := bit + 1;
    }

    /**
     * The identifier of type `t`: the cached word when `t` has asked before,
     * otherwise the result of its first request.
     */
    method IdFor(t: TypeName) returns (r: Result<CompId>)
      requires Valid()
      modifies this
      ensures Valid()
      ensures t in old(ids) ==> r == Ok(old(ids)[t]) && ids == old(ids) && order == old(order)
      ensures t !in old(ids) ==> r == NthId(|old(order)|)
      ensures t !in old(ids) && r.Ok? ==> ids == old(ids)[t := r.value] && order == old(order) + [t]
      ensures r.Err? ==> ids == old(ids) && order == old(order)
    {
      if t in ids {
        return Ok(ids[t]);
      }
      r := FirstRequest(t);
    }

    /** The first request of type `t`: one `GetBit` call, whose word is then cached. */
    method FirstRequest(t: TypeName) returns (r: Result<CompId>)
      requires Valid() && t !in ids
      modifies this
      ensures Valid()
      ensures r == NthId(|old(order)|)
      ensures r.Ok? ==> ids == old(ids)[t := r.value] && order == old(order) + [t]
      ensures r.Err? ==> ids == old(ids) && order == old(order)
    {
      ghost var before := Cursor(idx, bit);
      r := GetBit();
      CacheStep(ids, order, t, before, r, Cursor(idx, bit));
      if r.Ok? {
        ids := ids[t := r.value];
        order := order + [t];
      }
    }
  }
}
