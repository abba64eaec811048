/** Ids of surfaces, contexts and guest memory regions: bit masks with a hint where to look first. */
module Ids {
  import opened Words
  import opened IdMasks

  const SURFACE_ENTRIES: nat := 4
  const CONTEXT_ENTRIES: nat := 1
  const GMR_ENTRIES: nat := 2

  /** One mask and its hint (`m_surface_id_mask` and `m_surface_id_idx`, and so on). */
  class IdPool {
    const mask: array<Word64>
    var idx: nat

    /** Every word before the hint is full. */
    ghost predicate Valid()
      reads this, mask
    {
      idx <= mask.Length && forall m: nat | m < 64 * idx :: IdBit(mask[..], m)
    }

    ghost predicate Taken(id: nat)
      reads mask
    {
      id < 64 * mask.Length && IdBit(mask[..], id)
    }

    ghost predicate Full()
      reads mask
    {
      forall m: nat | m < 64 * mask.Length :: IdBit(mask[..], m)
    }

    constructor (numEntries: nat)
      ensures Valid() && mask.Length == numEntries && fresh(mask)
      ensures forall m: nat :: !Taken(m)
    {
      mask := new Word64[numEntries](_ => Zero(64));
      idx := 0;
    }

    /** The common part of `AllocSurfaceID` and `AllocGMRID`: the lowest free id of all, although the
        search starts at the hint; -1 if there is none. */
    method Alloc() returns (r: int)
      requires Valid()
      modifies this`idx, mask
      ensures Valid()
      ensures r < 0 ==> r == -1 && mask[..] == old(mask[..])
      ensures r < 0 <==> old(Full())
      ensures r >= 0 ==>
                && r < 64 * mask.Length && !old(Taken(r)) && (forall m: nat | m < r :: old(Taken(m)))
                && forall m: nat :: Taken(m) == (m == r || old(Taken(m)))
    {
      ghost var was := mask[..];
      r := FindBit(mask, idx, mask.Length - idx);
      if r < 0 {
        idx := mask.Length;
      } else {
        var t := r / 64;
        r := r + 64 * idx;
        assert !IdBit(was, r);
        idx := idx + t;
      }
    }

    /** `FreeSurfaceID` and `FreeGMRID`; an id that the mask does not manage is ignored. */
    method Free(id: nat)
      requires Valid()
      modifies this`idx, mask
      ensures Valid()
      ensures forall m: nat :: Taken(m) == (m != id && old(Taken(m)))
    {
      var r := id / 64;
      if r >= mask.Length {
        return;
      }
      ghost var was := mask[..];
      ClearIdBit(mask, id);
      if r < idx {
        idx := r;
      }
    }
  }

  /** Ids of guest memory regions. Those the device does not have are taken from the beginning. */
  class GMRIds {
    const pool: IdPool
    const maxIds: nat

    ghost predicate Valid()
      reads this, pool, pool.mask
    {
      pool.Valid() && pool.mask.Length == GMR_ENTRIES && forall m: nat | maxIds <= m < 128 :: pool.Taken(m)
    }

    /** The ids that are in use. */
    ghost predicate Live(id: nat)
      reads pool.mask
    {
      id < maxIds && pool.Taken(id)
    }

    /** `start`, as far as the mask goes. */
    constructor (maxGMRIDs: nat)
      ensures Valid() && maxIds == maxGMRIDs && fresh(pool) && fresh(pool.mask) && forall id: nat :: !Live(id)
    {
      pool := new IdPool(GMR_ENTRIES);
      maxIds := maxGMRIDs;
      new;
      MaskRange(pool.mask, maxGMRIDs, 128);
    }

    /** `AllocGMRID`: the lowest id that is not in use and that the device has, or -1. */
    method AllocGMRID() returns (r: int)
      requires Valid()
      modifies pool`idx, pool.mask
      ensures Valid()
      ensures r < 0 <==> forall id: nat | id < maxIds && id < 128 :: old(Live(id))
      ensures r < 0 ==> r == -1 && forall id: nat :: Live(id) == old(Live(id))
      ensures r >= 0 ==>
                && r < maxIds && r < 128 && !old(Live(r)) && (forall m: nat | m < r :: old(Live(m)))
                && forall id: nat :: Live(id) == (id == r || old(Live(id)))
    {
      r := pool.Alloc();
      assert r >= 0 ==> !old(Live(r)) && !old(pool.Taken(r));
    }

    /** `FreeGMRID`; ids beyond the mask are ignored. Ids that the device lacks must not be freed: they would
        be handed out next. */
    method FreeGMRID(gmrId: nat)
      requires Valid() && (gmrId < maxIds || gmrId >= 128)
      modifies pool`idx, pool.mask
      ensures Valid()
      ensures forall id: nat :: Live(id) == (id != gmrId && old(Live(id)))
    {
      pool.Free(gmrId);
    }
  }

  /** The `t`-th id that is counted up, and how many come before `id`. */
  function Counted(base: nat, t: nat): Word {
    (base + t) % WORD_LIMIT
  }

  function Before(base: nat, id: Word): nat
    requires base < WORD_LIMIT
  {
    (id + WORD_LIMIT - base) % WORD_LIMIT
  }

  lemma MaskBeforeWrap(base: nat, id: Word)
    requires base < WORD_LIMIT && id < base
    ensures Before(base, id) >= WORD_LIMIT - base
  {
  }

  lemma CountedNext(base: nat, issued: nat, id: Word)
    requires base < WORD_LIMIT
    ensures var r := Counted(base, issued % WORD_LIMIT);
            && (Before(base, id) < issued + 1 <==> id == r || Before(base, id) < issued)
            && (issued < WORD_LIMIT ==> Before(base, r) == issued)
            && (r < base || Before(base, r) < issued <==> issued >= WORD_LIMIT - base)
            && (issued < 0x8000_0000 - base ==> r < 0x8000_0000)
  {
  }

  /** Ids of surfaces or contexts. When the mask is full, further ids are counted up from its end and
      never used again. */
  class UnmanagedIds {
    const pool: IdPool
    var unmanaged: Word
    ghost var issued: nat

    ghost predicate Valid()
      reads this, pool, pool.mask
    {
      pool.Valid() && 64 * pool.mask.Length < WORD_LIMIT && unmanaged == issued % WORD_LIMIT
    }

    /** The ids in use: those in the mask, and every one that was counted up so far. */
    ghost predicate Live(id: Word)
      reads this, pool.mask
    {
      pool.Taken(id) || (64 * pool.mask.Length < WORD_LIMIT && Before(64 * pool.mask.Length, id) < issued)
    }

    /** The ids of surfaces. */
    constructor Surfaces()
      ensures Valid() && pool.mask.Length == SURFACE_ENTRIES && issued == 0 && fresh(pool) && fresh(pool.mask)
      ensures forall id: Word :: !Live(id)
    {
      pool := new IdPool(SURFACE_ENTRIES);
      unmanaged, issued := 0, 0;
    }

    /** The ids of contexts. Their single word is searched without a hint, which is the same. */
    constructor Contexts()
      ensures Valid() && pool.mask.Length == CONTEXT_ENTRIES && issued == 0 && fresh(pool) && fresh(pool.mask)
      ensures forall id: Word :: !Live(id)
    {
      pool := new IdPool(CONTEXT_ENTRIES);
      unmanaged, issued := 0, 0;
    }

    lemma NextIsFresh()
      requires Valid()
      ensures Counted(64 * pool.mask.Length, unmanaged) == (64 * pool.mask.Length + issued) % WORD_LIMIT
      ensures pool.Full() ==>
                (!Live(Counted(64 * pool.mask.Length, unmanaged)) <==> issued < WORD_LIMIT - 64 * pool.mask.Length)
    {
      assert Counted(64 * pool.mask.Length, unmanaged) == (64 * pool.mask.Length + issued) % WORD_LIMIT;
      hide Before, Counted;
      var r := Counted(64 * pool.mask.Length, unmanaged);
      CountedNext(64 * pool.mask.Length, issued, r);
      if pool.Full() {
        assert pool.Taken(r) <==> r < 64 * pool.mask.Length;
      }
    }

    /** `AllocSurfaceID` and `AllocContextID`. The lowest id of the mask that is not in use, or the next one
        counted up; no id in use is ever handed out again as long as the 32-bit counter has not come
        around to the ids of the mask, and with a full mask exactly as long. */
    method AllocID() returns (r: Word)
      requires Valid()
      modifies this`unmanaged, this`issued, pool`idx, pool.mask
      ensures Valid()
      ensures !old(pool.Full()) ==>
                && r < 64 * pool.mask.Length && !old(pool.Taken(r)) && (forall m: nat | m < r :: old(pool.Taken(m)))
                && issued == old(issued) && (issued <= WORD_LIMIT - 64 * pool.mask.Length ==> !old(Live(r)))
      ensures old(pool.Full()) ==>
                && r == (64 * pool.mask.Length + old(issued)) % WORD_LIMIT && issued == old(issued) + 1
                && (!old(Live(r)) <==> old(issued) < WORD_LIMIT - 64 * pool.mask.Length)
                && (old(issued) < 0x8000_0000 - 64 * pool.mask.Length ==> r < 0x8000_0000)
      ensures forall id: Word :: Live(id) == (id == r || old(Live(id)))
    {
      hide Counted, Before;
      NextIsFresh();
      var i := pool.Alloc();
      if i < 0 {
        r := Counted(64 * pool.mask.Length, unmanaged);
        forall id: Word {
          CountedNext(64 * pool.mask.Length, issued, id);
        }
        unmanaged := (unmanaged + 1) % WORD_LIMIT;
        issued := issued + 1;
      } else {
        r := i;
        MaskBeforeWrap(64 * pool.mask.Length, r);
      }
    }

    /** `FreeSurfaceID` and `FreeContextID`: an id of the mask is free again; an id that was counted up stays
        out of use for good. */
    method FreeID(id: Word)
      requires Valid()
      modifies pool`idx, pool.mask
      ensures Valid()
      ensures forall m: nat :: pool.Taken(m) == (m != id && old(pool.Taken(m)))
      ensures forall m: Word | m != id || m >= 64 * pool.mask.Length :: Live(m) == old(Live(m))
      ensures id < 64 * pool.mask.Length && issued <= WORD_LIMIT - 64 * pool.mask.Length ==> !Live(id)
    {
      pool.Free(id);
    }
  }
}
