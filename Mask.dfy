/**
 * What installing a component list does to an entity's storage, stated on
 * values: the mask words `setmaskbit` produces, the membership test `has`
 * performs on them, and the map `setComps` leaves behind.
 */
module Mask {
  import opened Ids

  /** A mask as `calloc` returns it: MAX_IDX + 1 zero words. */
  function ZeroMask(): (m: seq<bv64>)
    ensures |m| == MASK_WORDS && forall s :: 0 <= s < |m| ==> m[s] == 0
  {
    [0, 0, 0, 0]
  }

  /** The test `has` performs: the word at the id's index shares a bit with its bit-field. */
  predicate InMask(mask: seq<bv64>, id: CompId)
    requires |mask| == MASK_WORDS
  {
    mask[Slot(id)] & High(id) != 0
  }

  /** One step of `setmaskbit`: OR the id's bit-field into the word at its index. */
  function SetBit(mask: seq<bv64>, id: CompId): (m: seq<bv64>)
    requires |mask| == MASK_WORDS
    ensures |m| == MASK_WORDS
  {
    mask[Slot(id) := mask[Slot(id)] | High(id)]
  }

  /** `setmaskbit` over a whole list, left to right. */
  function OrBits(mask: seq<bv64>, ids: seq<CompId>): (m: seq<bv64>)
    requires |mask| == MASK_WORDS
    ensures |m| == MASK_WORDS
    decreases |ids|
  {
    if ids == [] then mask else SetBit(OrBits(mask, ids[..|ids| - 1]), ids[|ids| - 1])
  }

  /** The mask a fresh install of `ids` leaves: a zeroed array with their bits ORed in. */
  function MaskOf(ids: seq<CompId>): (m: seq<bv64>)
    ensures |m| == MASK_WORDS
  {
    OrBits(ZeroMask(), ids)
  }

  /** The OR of the bit-fields of the listed ids whose index is `s`, in list order. */
  function WordOf(ids: seq<CompId>, s: nat): bv64
    decreases |ids|
  {
    if ids == [] then 0
    else
      var w := WordOf(ids[..|ids| - 1], s);
      if Slot(ids[|ids| - 1]) == s then w | High(ids[|ids| - 1]) else w
  }

  /** One `setmaskbit` step changes only the word at the id's own index. */
  lemma SetBitAt(mask: seq<bv64>, id: CompId, s: nat)
    requires |mask| == MASK_WORDS && s < MASK_WORDS
    ensures SetBit(mask, id)[s] == if Slot(id) == s then mask[s] | High(id) else mask[s]
  {
  }

  /** Word `s` of the installed mask is the OR of the listed bit-fields at index `s`. */
  lemma {:induction false} MaskOfWord(ids: seq<CompId>, s: nat)
    requires s < MASK_WORDS
    ensures MaskOf(ids)[s] == WordOf(ids, s)
    decreases |ids|
  {
    if ids != [] {
      var front := ids[..|ids| - 1];
      MaskOfWord(front, s);
      SetBitAt(OrBits(ZeroMask(), front), ids[|ids| - 1], s);
    }
  }

  /** The index bits of every mask word stay clear. */
  lemma {:induction false} IndexBitsClear(ids: seq<CompId>, s: nat)
    requires s < MASK_WORDS
    ensures MaskOf(ids)[s] & MAX_IDX == 0
  {
    MaskOfWord(ids, s);
    WordIndexBitsClear(ids, s);
  }

  lemma {:induction false} WordIndexBitsClear(ids: seq<CompId>, s: nat)
    ensures WordOf(ids, s) & MAX_IDX == 0
    decreases |ids|
  {
    if ids != [] {
      var front := ids[..|ids| - 1];
      WordIndexBitsClear(front, s);
      OrKeepsClear(WordOf(front, s), High(ids[|ids| - 1]));
    }
  }

  lemma OrKeepsClear(w: bv64, h: bv64)
    requires w & MAX_IDX == 0 && h & MAX_IDX == 0
    ensures (w | h) & MAX_IDX == 0
  {
  }

  /** A word whose index no listed type uses stays zero. */
  lemma UnusedSlotZero(ids: seq<CompId>, s: nat)
    requires s < MASK_WORDS
    requires forall i :: 0 <= i < |ids| ==> Slot(ids[i]) != s
    ensures MaskOf(ids)[s] == 0
  {
    MaskOfWord(ids, s);
    UnusedWordZero(ids, s);
  }

  lemma {:induction false} UnusedWordZero(ids: seq<CompId>, s: nat)
    requires forall i :: 0 <= i < |ids| ==> Slot(ids[i]) != s
    ensures WordOf(ids, s) == 0
    decreases |ids|
  {
    if ids != [] {
      UnusedWordZero(ids[..|ids| - 1], s);
    }
  }

  /** Every bit of `h` is set in `w`. */
  predicate Covers(w: bv64, h: bv64)
  {
    w & h == h
  }

  /** No bit of `h` is set in `w`. */
  predicate Misses(w: bv64, h: bv64)
  {
    w & h == 0
  }

  /** OR-ing more bits into a word that covers `h` keeps it covering `h`. */
  lemma OrKeepsCover(w: bv64, x: bv64, h: bv64)
    requires Covers(w, h)
    ensures Covers(w | x, h) && Covers(x | w, h)
  {
  }

  /** OR-ing two words that both miss `h` gives a word that misses `h`. */
  lemma OrKeepsMiss(w: bv64, x: bv64, h: bv64)
    requires Misses(w, h) && Misses(x, h)
    ensures Misses(w | x, h)
  {
  }

  /** A word covering a non-empty `h` shares a bit with it; a word missing `h` shares none. */
  lemma CoverOverlaps(w: bv64, h: bv64)
    ensures Covers(w, h) && h != 0 ==> w & h != 0
    ensures Misses(w, h) ==> w & h == 0
  {
  }

  /** Every listed type with a bit-field is found by the test, whatever else is listed. */
  lemma ListedIsSet(ids: seq<CompId>, id: CompId)
    requires id in ids && High(id) != 0
    ensures InMask(MaskOf(ids), id)
  {
    ListedInWord(ids, id);
    CoveredIsSet(ids, id);
  }

  /** The test finds an id whose whole non-empty bit-field its word covers. */
  lemma CoveredIsSet(ids: seq<CompId>, id: CompId)
    requires Covers(WordOf(ids, Slot(id)), High(id)) && High(id) != 0
    ensures InMask(MaskOf(ids), id)
  {
    MaskOfWord(ids, Slot(id));
    CoverOverlaps(WordOf(ids, Slot(id)), High(id));
  }

  /** The test misses an id whose bit-field its word misses. */
  lemma MissedIsClear(ids: seq<CompId>, id: CompId)
    requires Misses(WordOf(ids, Slot(id)), High(id))
    ensures !InMask(MaskOf(ids), id)
  {
    MaskOfWord(ids, Slot(id));
    CoverOverlaps(WordOf(ids, Slot(id)), High(id));
  }

  /** The word at the index of a listed id covers its whole bit-field. */
  lemma {:induction false} ListedInWord(ids: seq<CompId>, id: CompId)
    requires id in ids
    ensures Covers(WordOf(ids, Slot(id)), High(id))
    decreases |ids|
  {
    if id == ids[|ids| - 1] {
      LastCovers(ids, id);
    } else {
      InFront(ids, id);
      ListedInWord(ids[..|ids| - 1], id);
      CoverKept(ids, id);
    }
  }

  /** The last listed id's word covers its bit-field. */
  lemma LastCovers(ids: seq<CompId>, id: CompId)
    requires ids != [] && ids[|ids| - 1] == id
    ensures Covers(WordOf(ids, Slot(id)), High(id))
  {
    SelfCovers(High(id));
    OrKeepsCover(High(id), WordOf(ids[..|ids| - 1], Slot(id)), High(id));
  }

  lemma SelfCovers(h: bv64)
    ensures Covers(h, h)
  {
  }

  /** Listing one more id keeps a covered bit-field covered. */
  lemma CoverKept(ids: seq<CompId>, id: CompId)
    requires ids != [] && Covers(WordOf(ids[..|ids| - 1], Slot(id)), High(id))
    ensures Covers(WordOf(ids, Slot(id)), High(id))
  {
    var last := ids[|ids| - 1];
    if Slot(last) == Slot(id) {
      OrKeepsCover(WordOf(ids[..|ids| - 1], Slot(id)), High(last), High(id));
    }
  }

  /** An element other than the last one is in the list's front. */
  lemma InFront<T>(xs: seq<T>, x: T)
    requires x in xs && x != xs[|xs| - 1]
    ensures x in xs[..|xs| - 1]
  {
    assert xs == xs[..|xs| - 1] + [xs[|xs| - 1]];
  }

  /** If `x` sits at the index of `id`, it overlaps the bit-field of `id` exactly when it is `id`. */
  predicate Exact(x: CompId, id: CompId)
  {
    Slot(x) == Slot(id) && x != id ==> Misses(High(x), High(id))
  }

  /** Every listed id is `Exact` with respect to `id`. */
  predicate Separated(ids: seq<CompId>, id: CompId)
    decreases |ids|
  {
    ids == [] || (Separated(ids[..|ids| - 1], id) && Exact(ids[|ids| - 1], id))
  }

  /** An unlisted id whose listed neighbours are all `Exact` finds no overlap in its word. */
  lemma {:induction false} UnlistedClear(ids: seq<CompId>, id: CompId)
    requires Separated(ids, id) && id !in ids
    ensures Misses(WordOf(ids, Slot(id)), High(id))
    decreases |ids|
  {
    if ids != [] {
      NotInFront(ids, id);
      UnlistedClear(ids[..|ids| - 1], id);
      MissKept(ids, id);
    }
  }

  /** Listing one more id other than `id`, and `Exact` for it, keeps its bit-field missed. */
  lemma MissKept(ids: seq<CompId>, id: CompId)
    requires ids != [] && Misses(WordOf(ids[..|ids| - 1], Slot(id)), High(id))
    requires ids[|ids| - 1] != id && Exact(ids[|ids| - 1], id)
    ensures Misses(WordOf(ids, Slot(id)), High(id))
  {
    var last := ids[|ids| - 1];
    if Slot(last) == Slot(id) {
      OrKeepsMiss(WordOf(ids[..|ids| - 1], Slot(id)), High(last), High(id));
    }
  }

  /** An element missing from a list is missing from its front and is not its last element. */
  lemma NotInFront<T>(xs: seq<T>, x: T)
    requires xs != [] && x !in xs
    ensures x !in xs[..|xs| - 1] && x != xs[|xs| - 1]
  {
    assert xs == xs[..|xs| - 1] + [xs[|xs| - 1]];
  }

  lemma {:induction false} WellFormedSeparated(ids: seq<CompId>, id: CompId)
    requires forall i :: 0 <= i < |ids| ==> IsId(ids[i])
    requires IsId(id)
    ensures Separated(ids, id)
    decreases |ids|
  {
    if ids != [] {
      var front, last := ids[..|ids| - 1], ids[|ids| - 1];
      WellFormedSeparated(front, id);
      if Slot(last) == Slot(id) && last != id {
        OverlapMeansEqual(last, id);
        CoverOverlaps(High(last), High(id));
      }
    }
  }


  /**
   * For well-formed identifiers the test is exact: it succeeds precisely for
   * the listed ones. In particular a type that an earlier install listed but
   * this one does not is no longer found.
   */
  lemma MaskOfMembership(ids: seq<CompId>, id: CompId)
    requires forall i :: 0 <= i < |ids| ==> IsId(ids[i])
    requires IsId(id)
    ensures InMask(MaskOf(ids), id) <==> id in ids
  {
    if id in ids {
      ListedInWord(ids, id);
      CoveredIsSet(ids, id);
    } else {
      WellFormedSeparated(ids, id);
      UnlistedClear(ids, id);
      MissedIsClear(ids, id);
    }
  }

  /**
   * `setComps` over a list: each listed id is written, left to right, with
   * the handle made for it; nothing is removed.
   */
  function Overwrite<H>(m: map<CompId, H>, ids: seq<CompId>, made: seq<H>): (r: map<CompId, H>)
    requires |ids| == |made|
    ensures m.Keys <= r.Keys
    decreases |ids|
  {
    if ids == [] then m
    else Overwrite(m, ids[..|ids| - 1], made[..|made| - 1])[ids[|ids| - 1] := made[|made| - 1]]
  }

  /** The keys after the writes: the old keys plus the listed ids. */
  lemma {:induction false} OverwriteKeys<H>(m: map<CompId, H>, ids: seq<CompId>, made: seq<H>)
    requires |ids| == |made|
    ensures forall k :: k in Overwrite(m, ids, made) <==> k in m || k in ids
    decreases |ids|
  {
    if ids != [] {
      var front := ids[..|ids| - 1];
      OverwriteKeys(m, front, made[..|made| - 1]);
      assert ids == front + [ids[|ids| - 1]];
    }
  }

  /** A key that is not listed keeps the value it had. */
  lemma {:induction false} OverwriteKeeps<H>(m: map<CompId, H>, ids: seq<CompId>, made: seq<H>, k: CompId)
    requires |ids| == |made|
    requires k in m && k !in ids
    ensures k in Overwrite(m, ids, made) && Overwrite(m, ids, made)[k] == m[k]
    decreases |ids|
  {
    if ids != [] {
      var front := ids[..|ids| - 1];
      assert k !in front by { assert ids == front + [ids[|ids| - 1]]; }
      OverwriteKeeps(m, front, made[..|made| - 1], k);
    }
  }

  /** A listed key ends with the handle made at its last listing: later handles win. */
  lemma {:induction false} OverwriteLastWins<H>(m: map<CompId, H>, ids: seq<CompId>, made: seq<H>, i: nat)
    requires |ids| == |made| && i < |ids|
    requires forall j :: i < j < |ids| ==> ids[j] != ids[i]
    ensures ids[i] in Overwrite(m, ids, made) && Overwrite(m, ids, made)[ids[i]] == made[i]
    decreases |ids|
  {
    if i < |ids| - 1 {
      var front := ids[..|ids| - 1];
      assert front[i] == ids[i];
      OverwriteLastWins(m, front, made[..|made| - 1], i);
    }
  }
}
