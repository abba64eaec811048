/** Handing memory to the allocator: what `Release` does to the page owners, and when the guarantee of
    the allocator survives it. */
module BuddyRelease {
  import opened Words
  import opened PowersOfTwo
  import opened ByteMap
  import opened BuddyModel
  import opened Coalescing
  import opened BuddySpec

  /** A free block of order `k` ends where the range begins, and the first block of the range is its buddy. */
  ghost predicate LeftSeam(was: seq<Owner>, first: nat, past: nat, k: nat) {
    && Aligned(first, k) && first + Pow2(k) <= past
    && FlipBit(first, k) < first && FlipBit(first, k) < |was| && was[FlipBit(first, k)] == Free(FlipBit(first, k), k)
  }

  /** A free block of order `k` begins where the range ends, and the last block of the range is its buddy. */
  ghost predicate RightSeam(was: seq<Owner>, first: nat, past: nat, k: nat) {
    && past < |was| && was[past] == Free(past, k) && first <= FlipBit(past, k) < past
  }

  ghost predicate SeamsClean(was: seq<Owner>, first: nat, past: nat) {
    forall k: nat | k + 1 < NUM_SIZES :: !LeftSeam(was, first, past, k) && !RightSeam(was, first, past, k)
  }

  /** Unreleased pages became free blocks, cut canonically. */
  ghost predicate ReleasedTo(was: seq<Owner>, now: seq<Owner>, first: nat, past: nat) {
    && |now| == |was| && past <= |was|
    && (forall p | first <= p < past :: was[p].Unreleased?)
    && CanonicalIn(now, first, past)
    && (forall p | 0 <= p < |was| && !(first <= p < past) :: now[p] == was[p])
    && NoneLoose(now)
  }

  lemma TiledAfterPages(owner: seq<Owner>, first: nat, n: nat)
    requires Tiled(owner) && forall p | first <= p < first + n && p < |owner| :: owner[p].Unreleased?
    ensures Tiled(Paint(owner, first, n, Loose))
  {
    hide Aligned, Pow2;
    var owner' := Paint(owner, first, n, Loose);
    forall p: nat | p < |owner'|
      ensures BlockAt(owner', p)
    {
      assert BlockAt(owner, p);
      if owner'[p].Free? || owner'[p].Live? {
        forall q | owner[p].start <= q < owner[p].start + Pow2(owner[p].order)
          ensures owner'[q] == owner'[p]
        {
          assert owner[q] == owner[p];
        }
      }
    }
  }

  lemma ReleaseConsistent(mem: seq<Word>, heads: seq<Word>, bits: seq<bv8>, bits': seq<bv8>, l: Layout, first: nat, n: nat)
    requires Consistent(mem, heads, bits, l.owner, l.lists) && first + n <= |l.owner|
    requires forall p | first <= p < first + n :: l.owner[p].Unreleased?
    requires |bits'| == |bits|
    requires forall m: nat | m < 8 * |bits| :: Bit(bits', m) == (!(first <= m < first + n) && Bit(bits, m))
    ensures Consistent(mem, heads, bits', Paint(l.owner, first, n, Loose), l.lists)
    ensures FreePages(Paint(l.owner, first, n, Loose)) == FreePages(l.owner)
    ensures FreePages(l.owner) + n <= |l.owner|
  {
    hide Aligned, Pow2, Total, CountFree, FreePages, ListsOk, Bit;
    var owner' := Paint(l.owner, first, n, Loose);
    CountPaint(l.owner, first, n, Loose, false);
    CountPaint(l.owner, first, n, Free(0, 0), false);
    assert FreePages(Paint(l.owner, first, n, Free(0, 0))) <= |l.owner|;
    TiledAfterPages(l.owner, first, n);
    ListsIgnoreOthers(mem, heads, l.owner, owner', l.lists);
    assert BitsOk(bits', owner') by {
      forall p: nat | p < |l.owner|
        ensures Bit(bits', p) == Marked(owner', p)
      {
        assert Bit(bits, p) == Marked(l.owner, p);
      }
    }
  }

  /** A free block outside the range can only be the buddy of one inside across one of the two seams. */
  lemma CrossingIsSeam(was: seq<Owner>, now: seq<Owner>, first: nat, past: nat, t: nat, k: nat)
    requires Tiled(was) && Tiled(now) && |now| == |was| && past <= |was| && CanonicalIn(now, first, past)
    requires forall p | first <= p < past :: was[p].Unreleased?
    requires forall p | 0 <= p < |was| && !(first <= p < past) :: now[p] == was[p]
    requires first <= t < past && now[t] == Free(t, k)
    requires !(first <= FlipBit(t, k) < past) && FlipBit(t, k) < |now| && now[FlipBit(t, k)] == Free(FlipBit(t, k), k)
    ensures LeftSeam(was, first, past, k) || RightSeam(was, first, past, k)
  {
    var b := FlipBit(t, k);
    assert BlockAt(now, t) && MaximalAt(now, first, past, t);
    FlipBitIsBuddy(t, k);
    hide Aligned, Pow2, FlipBit;
    assert BlockAt(was, b) && was[b] == now[b] && was[first].Unreleased?;
  }

  lemma CleanSeamsDoNotCross(was: seq<Owner>, now: seq<Owner>, first: nat, past: nat)
    requires Tiled(was) && Tiled(now) && |now| == |was| && past <= |was| && CanonicalIn(now, first, past)
    requires forall p | first <= p < past :: was[p].Unreleased?
    requires forall p | 0 <= p < |was| && !(first <= p < past) :: now[p] == was[p]
    requires SeamsClean(was, first, past)
    ensures NoCross(now, first, past)
  {
    forall t: nat | first <= t < past && now[t].Free? && now[t].start == t && now[t].order + 1 < NUM_SIZES
      ensures var b := FlipBit(t, now[t].order);
              !(first <= b < past) ==> !(b < |now| && now[b] == Free(b, now[t].order))
    {
      var k := now[t].order;
      var b := FlipBit(t, k);
      hide Tiled, CanonicalIn, LeftSeam, RightSeam;
      if !(first <= b < past) && b < |now| && now[b] == Free(b, k) {
        CrossingIsSeam(was, now, first, past, t, k);
      }
    }
  }

  lemma LeftSeamBreaks(was: seq<Owner>, now: seq<Owner>, first: nat, past: nat, k: nat)
    requires Tiled(now) && |now| == |was| && past <= |was| && CanonicalIn(now, first, past)
    requires forall p | 0 <= p < |was| && !(first <= p < past) :: now[p] == was[p]
    requires k + 1 < NUM_SIZES && LeftSeam(was, first, past, k)
    ensures !Coalesced(now)
  {
    FlipBitIsBuddy(first, k);
    assert MaximalAt(now, first, past, first) && BlockAt(now, first);
    MaximalOrder(now, first, past, first, first, k);
    hide Pow2, FlipBit, Aligned;
    if now[first].order > k {
      AlignedWeaken(first, k + 1, now[first].order);
    }
    assert !NoFreeBuddy(now, FlipBit(first, k));
  }

  lemma RightSeamBreaks(was: seq<Owner>, now: seq<Owner>, first: nat, past: nat, k: nat)
    requires Tiled(was) && Tiled(now) && |now| == |was| && past <= |was| && CanonicalIn(now, first, past)
    requires forall p | 0 <= p < |was| && !(first <= p < past) :: now[p] == was[p]
    requires k + 1 < NUM_SIZES && RightSeam(was, first, past, k)
    ensures !Coalesced(now)
  {
    assert BlockAt(was, past);
    FlipBitIsBuddy(past, k);
    var t := FlipBit(past, k);
    assert MaximalAt(now, first, past, t) && BlockAt(now, t);
    MaximalOrder(now, first, past, t, t, k);
    hide Pow2, FlipBit, Aligned;
    var u, j := now[t].start, now[t].order;
    if j > k {
      Nested(t, k, u, j, t);
      AlignedStep(u, j);
      AlignedWeaken(past, k + 1, j);
    } else {
      AlignDownUnique(u, k, t);
      AlignDownUnique(t, k, t);
    }
    assert !NoFreeBuddy(now, past);
  }

  lemma ReleasedWhole(was: seq<Owner>, mid: seq<Owner>, now: seq<Owner>, first: nat, past: nat)
    requires NoneLoose(was) && |now| == |was| && past <= |was|
    requires forall p | first <= p < past :: was[p].Unreleased?
    requires mid == Paint(was, first, if first <= past then past - first else 0, Loose)
    requires CanonicalIn(now, first, past)
    requires forall p | 0 <= p < |now| && !(first <= p < past) :: now[p] == mid[p]
    ensures ReleasedTo(was, now, first, past) && NoneLoose(now)
  {
    hide Pow2, Aligned, FlipBit;
    forall p: nat | p < |now|
      ensures now[p] != Loose
    {
      if first <= p < past {
        assert MaximalAt(now, first, past, p);
      }
    }
  }

  /** Two free buddies stay two free buddies: a release does not touch them. */
  lemma UncoalescedStays(was: seq<Owner>, now: seq<Owner>, first: nat, past: nat)
    requires ReleasedTo(was, now, first, past) && !Coalesced(was)
    ensures !Coalesced(now)
  {
    var s: nat :| s < |was| && !NoFreeBuddy(was, s);
    hide FlipBit, CanonicalIn;
    assert now[s] == was[s] && now[FlipBit(s, was[s].order)] == was[FlipBit(s, was[s].order)];
    assert !NoFreeBuddy(now, s);
  }

  /** A release leaves free blocks coalesced exactly if they were and no free block beside the range is the
      buddy of a block at its end. */
  lemma ReleaseCoalesced(was: seq<Owner>, now: seq<Owner>, first: nat, past: nat)
    requires Tiled(was) && Tiled(now) && ReleasedTo(was, now, first, past)
    ensures Coalesced(now) <==> Coalesced(was) && SeamsClean(was, first, past)
  {
    hide Coalesced, CanonicalIn, NoCross, LeftSeam, RightSeam, Pow2, Aligned, FlipBit;
    if !Coalesced(was) {
      UncoalescedStays(was, now, first, past);
    } else if SeamsClean(was, first, past) {
      var mid := Paint(was, first, if first <= past then past - first else 0, Loose);
      LoosenKeepsCoalesced(was, first, if first <= past then past - first else 0, Loose);
      CleanSeamsDoNotCross(was, now, first, past);
      FillKeepsCoalesced(mid, now, first, past);
    } else {
      var k: nat :| k + 1 < NUM_SIZES && !(!LeftSeam(was, first, past, k) && !RightSeam(was, first, past, k));
      if LeftSeam(was, first, past, k) {
        LeftSeamBreaks(was, now, first, past, k);
      } else {
        RightSeamBreaks(was, now, first, past, k);
      }
    }
  }

  /** A page of the range whose bit `testAll` sees to be clear. */
  ghost predicate TestedClear(owner: seq<Owner>, first: nat, past: nat, p: nat)
    requires past <= |owner|
  {
    first <= p < past && !Unseen(first, past, p) && !Marked(owner, p)
  }

  lemma ReleaseTest(bits: seq<bv8>, owner: seq<Owner>, first: nat, past: nat)
    requires BitsOk(bits, owner) && past <= |owner|
    ensures (forall i: nat | first <= i < past && !Unseen(first, past, i) :: Bit(bits, i)) <==>
            !exists p: nat :: TestedClear(owner, first, past, p)
  {
    hide Bit, Unseen;
    if !(forall i: nat | first <= i < past && !Unseen(first, past, i) :: Bit(bits, i)) {
      var i: nat :| first <= i < past && !Unseen(first, past, i) && !Bit(bits, i);
      assert TestedClear(owner, first, past, i);
    }
  }

  // ----- the releases that setupAllocator makes -----

  /** Ranges that begin and end at multiples of the largest block, or at the end of the pool, have
      clean seams; `setupAllocator` releases [16 MB, s) and then [0, 16 MB). */
  lemma LargestBlockSeams(was: seq<Owner>, first: nat, past: nat)
    requires Aligned(first, NUM_SIZES - 1) && (Aligned(past, NUM_SIZES - 1) || past >= |was|)
    ensures SeamsClean(was, first, past)
  {
    forall k: nat | k + 1 < NUM_SIZES
      ensures !LeftSeam(was, first, past, k) && !RightSeam(was, first, past, k)
    {
      AlignedWeaken(first, k + 1, NUM_SIZES - 1);
      AlignedWeaken(first, k, NUM_SIZES - 1);
      FlipBitIsBuddy(first, k);
      if past < |was| {
        AlignedWeaken(past, k + 1, NUM_SIZES - 1);
        AlignedWeaken(past, k, NUM_SIZES - 1);
        FlipBitIsBuddy(past, k);
      }
    }
  }

  lemma SixteenMegabytes()
    ensures PAGE_BYTES * Pow2(NUM_SIZES - 1) == 0x1000000
    ensures Aligned(0, NUM_SIZES - 1) && Aligned(0x1000000 / PAGE_BYTES, NUM_SIZES - 1)
  {
    assert Pow2(4) == 16 && Pow2(8) == 256 && Pow2(12) == 4096;
    AlignedIsMod(0, 12);
    AlignedIsMod(4096, 12);
  }

  // ----- where the guarantee ends -----

  /** Two releases that meet elsewhere can leave a pair of buddies apart: here two single pages, so that
      a block of two pages could be placed and yet no free block is large enough. */
  lemma AdjacentReleasesBreakTheGuarantee()
    ensures var was, now := [Free(0, 0), Unreleased], [Free(0, 0), Free(1, 0)];
            && Tiled(was) && Coalesced(was) && ReleasedTo(was, now, 1, 2)
            && Placeable(now, 1) && !SomeBlock(now, 1)
  {
    var was, now := [Free(0, 0), Unreleased], [Free(0, 0), Free(1, 0)];
    assert Pow2(0) == 1 && Pow2(1) == 2 && Aligned(0, 1) && !Aligned(1, 1) && FlipBit(1, 0) == 0 && FlipBit(0, 0) == 1;
    assert FreeRun(now, 0, 1);
    assert BlockAt(was, 0) && BlockAt(was, 1) && BlockAt(now, 0) && BlockAt(now, 1);
    assert NoFreeBuddy(was, 0) && NoFreeBuddy(was, 1) && !NoFreeBuddy(now, 0);
    assert MaximalAt(now, 1, 2, 1) by { FlipBitIsBuddy(1, 0); ParentHolds(1, 0); }
    assert LeftSeam(was, 1, 2, 0);
  }

  /** Above the largest order the header's promise does not hold either: 32 MB may be free and aligned,
      but no block is ever that large. */
  lemma OversizeNeverFits(owner: seq<Owner>, b: nat)
    requires Tiled(owner) && b >= NUM_SIZES
    ensures !SomeBlock(owner, b)
    ensures var big := seq(8192, p => Free(if p < 4096 then 0 else 4096, 12));
            Tiled(big) && Placeable(big, 13) && !SomeBlock(big, 13)
  {
    forall p | 0 <= p < |owner| && owner[p].Free?
      ensures owner[p].order < b
    {
      assert BlockAt(owner, p);
    }
    var big := seq(8192, p => Free(if p < 4096 then 0 else 4096, 12));
    assert Pow2(4) == 16 && Pow2(8) == 256 && Pow2(12) == 4096 && Pow2(13) == 8192;
    AlignedIsMod(0, 12);
    AlignedIsMod(4096, 12);
    AlignedIsMod(0, 13);
    assert FreeRun(big, 0, 13);
    hide Pow2, Aligned;
    forall p: nat | p < |big|
      ensures BlockAt(big, p)
    {
    }
  }

  // ----- what a whole cycle does -----

  /** Taking a block and giving it back restores every page owner: the cut into free blocks depends only
      on which pages are free. */
  lemma MallocThenFree(was: seq<Owner>, mid: seq<Owner>, now: seq<Owner>, o: nat, b: nat)
    requires Tiled(was) && Tiled(mid) && Tiled(now) && Coalesced(was) && NoneLoose(was)
    requires Allocated(was, mid, o, b) && FreedTo(mid, now, o)
    ensures now == was
  {
    AllocatedFrame(was, mid, o, b);
    FreedFrame(mid, now, o);
    AllocatedKeepsCoalesced(was, mid, o, b);
    FreedKeepsCoalesced(mid, now, o);
    hide Allocated, FreedTo, Pow2;
    forall p | 0 <= p < |was|
      ensures now[p] == was[p]
    {
      if was[p].Free? {
        CanonicalBlocks(was, now, p);
      }
    }
  }
}
