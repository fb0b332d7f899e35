/**
 * Entities of the unsafe 4becs scheme: an entity owns a mask array (absent
 * until the first install) and a map from component identifiers to owned
 * component objects. Installing a component list replaces the mask and
 * merges fresh components into the map; the queries read the mask; the
 * teardown frees every component in the map and then the mask.
 *
 * Freeing is modelled by a ghost set of released objects.
 */
module Entity {
  import opened Ids
  import opened Mask

  /** An owned component object, known only by its address. */
  class Comp {
    constructor ()
    {
    }
  }

  /** `setmaskbit`: OR each listed id's bit-field into the word at its index, in list order. */
  method SetMaskBit(mask: array<bv64>, types: seq<CompId>)
    requires mask.Length == MASK_WORDS
    modifies mask
    ensures mask[..] == OrBits(old(mask[..]), types)
  {
    var i := 0;
    while i < |types|
      invariant 0 <= i <= |types|
      invariant mask[..] == OrBits(old(mask[..]), types[..i])
    {
      var id := types[i];
      mask[Slot(id)] := mask[Slot(id)] | High(id);
      assert types[..i + 1][..i] == types[..i];
      i := i + 1;
    }
    assert types[..|types|] == types;
  }

  /**
   * `setComps`: store a freshly made component under each listed id, in list
   * order, overwriting what was there; `made` are the components made.
   */
  method SetComps(comps: map<CompId, Comp>, types: seq<CompId>) returns (r: map<CompId, Comp>, ghost made: seq<Comp>)
    ensures |made| == |types| && r == Overwrite(comps, types, made)
    ensures forall j :: 0 <= j < |made| ==> fresh(made[j])
    ensures forall j, k :: 0 <= j < k < |made| ==> made[j] != made[k]
  {
    r, made := comps, [];
    var i := 0;
    while i < |types|
      invariant 0 <= i <= |types| && |made| == i
      invariant r == Overwrite(comps, types[..i], made)
      invariant forall j :: 0 <= j < |made| ==> fresh(made[j])
      invariant forall j, k :: 0 <= j < k < |made| ==> made[j] != made[k]
    {
      var c := new Comp();
      r := r[types[i] := c];
      assert types[..i + 1][..i] == types[..i];
      assert (made + [c])[..i] == made;
      made := made + [c];
      i := i + 1;
    }
    assert types[..|types|] == types;
  }

  /** An entity: its mask (null until the first install) and its component map. */
  class Ent {
    var compMask: array?<bv64>
    var compMap: map<CompId, Comp>
    /** The ids of the latest install, in the order they were listed. */
    ghost var installed: seq<CompId>
    /** Every object the entity has released so far. */
    ghost var freed: set<object>

    /**
     * A mask, when present, has MAX_IDX + 1 words and has not been released:
     * after `FREECOMPS` the field still points at the freed array, and `has`
     * would read released memory.
     */
    ghost predicate Usable()
      reads this
    {
      compMask != null ==> compMask.Length == MASK_WORDS && compMask !in freed
    }

    /**
     * The mask is what installing `installed` produces (no mask before the
     * first install), and each installed id has a component in the map.
     */
    ghost predicate Valid()
      reads this, compMask
    {
      Usable() &&
      (compMask == null ==> installed == []) &&
      (compMask != null ==> compMask[..] == MaskOf(installed)) &&
      forall i :: 0 <= i < |installed| ==> installed[i] in compMap
    }

    /** A new entity: no mask, no components. */
    constructor ()
      ensures Valid() && compMask == null && compMap == map[] && freed == {}
    {
      compMask, compMap, installed, freed := null, map[], [], {};
    }

    /** `has`: the entity has a mask and the word at the id's index shares a bit with its bit-field. */
    predicate Has(id: CompId): (b: bool)
      requires Usable()
      reads this, compMask
      ensures b ==> compMask != null
    {
      compMask != null && InMask(compMask[..], id)
    }

    /** `get`: the component stored under the id when `has` holds, otherwise null. */
    function Get(id: CompId): (c: Comp?)
      requires Usable()
      reads this, compMask
      ensures c != null ==> Has(id) && id in compMap && c == compMap[id]
      ensures Has(id) && id in compMap ==> c == compMap[id]
    {
      if Has(id) && id in compMap then compMap[id] else null
    }

    /** For well-formed ids, `has` holds exactly for the ids of the latest install. */
    lemma HasInstalled(id: CompId)
      requires Valid() && IsId(id)
      requires forall i :: 0 <= i < |installed| ==> IsId(installed[i])
      ensures Has(id) <==> id in installed
    {
      if compMask != null {
        MaskOfMembership(installed, id);
      }
    }

    /** `has` holds for no well-formed id outside the latest install and for every one inside it. */
    lemma HasExactlyInstalled()
      requires Valid()
      requires forall i :: 0 <= i < |installed| ==> IsId(installed[i])
      ensures forall id :: IsId(id) ==> (Has(id) <==> id in installed)
    {
      forall id | IsId(id)
        ensures Has(id) <==> id in installed
      {
        HasInstalled(id);
      }
    }

    /**
     * `get` returns the stored component for the ids of the latest install and
     * null for every other well-formed id; it never looks up a missing key.
     */
    lemma GetInstalled(id: CompId)
      requires Valid() && IsId(id)
      requires forall i :: 0 <= i < |installed| ==> IsId(installed[i])
      ensures id in installed ==> id in compMap && Get(id) == compMap[id]
      ensures id !in installed ==> Get(id) == null
    {
      HasInstalled(id);
    }

    /**
     * `incl`: release the old mask, take a zeroed one, OR the listed ids into
     * it and merge fresh components for them into the map.
     */
    method Incl(types: seq<CompId>) returns (ghost made: seq<Comp>)
      requires Valid()
      modifies this
      ensures Valid() && installed == types
      ensures compMask != null && fresh(compMask) && compMask[..] == MaskOf(types)
      ensures |made| == |types| && compMap == Overwrite(old(compMap), types, made)
      ensures forall j :: 0 <= j < |made| ==> fresh(made[j])
      ensures forall j, k :: 0 <= j < k < |made| ==> made[j] != made[k]
      ensures freed == old(freed) + if old(compMask) != null then {old(compMask)} else {}
      ensures (forall i :: 0 <= i < |types| ==> IsId(types[i])) ==>
                forall id :: IsId(id) ==> (Has(id) <==> id in types)
    {
      if compMask != null {
        freed := freed + {compMask};
        compMask := null;
      }
      compMask := new bv64[MASK_WORDS](_ => 0);
      assert compMask[..] == ZeroMask();
      SetMaskBit(compMask, types);
      compMap, made := SetComps(compMap, types);
      installed := types;
      OverwriteKeys(old(compMap), types, made);
      if forall i :: 0 <= i < |types| ==> IsId(types[i]) {
        HasExactlyInstalled();
      }
    }

    /**
     * `FREECOMPS`: release every component in the map, then the mask; nothing
     * is removed, so an entity that had a mask can no longer be queried.
     */
    method FreeComps()
      modifies this`freed
      ensures freed == old(freed) + compMap.Values + if compMask != null then {compMask} else {}
      ensures compMask != null ==> !Usable()
    {
      ghost var todo := compMap.Keys;
      while todo != {}
        invariant todo <= compMap.Keys
        invariant freed == old(freed) + set k | k in compMap.Keys - todo :: compMap[k]
        decreases |todo|
      {
        ghost var k :| k in todo;
        freed := freed + {compMap[k]};
        todo := todo - {k};
      }
      if compMask != null {
        freed := freed + {compMask};
      }
    }
  }
}
