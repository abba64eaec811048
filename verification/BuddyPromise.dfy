/** The promise of the allocator's header, and why it depends on coalesced free blocks: where two free
    buddies stand apart, some further allocations break it. */
module BuddyPromise {
  import opened PowersOfTwo
  import opened BuddyModel
  import opened Coalescing
  import opened BuddySpec

  /** A block of order `b` can be had exactly if 2^b aligned pages are free. */
  ghost predicate Promise(owner: seq<Owner>, b: nat) {
    SomeBlock(owner, b) <==> Placeable(owner, b)
  }

  /** The promise for every order there is. */
  ghost predicate Promised(owner: seq<Owner>) {
    forall b: nat | b < NUM_SIZES :: Promise(owner, b)
  }

  lemma BlockIsPlaceable(owner: seq<Owner>, b: nat)
    requires Tiled(owner) && SomeBlock(owner, b)
    ensures Placeable(owner, b)
  {
    var p :| 0 <= p < |owner| && owner[p].Free? && owner[p].order >= b;
    assert BlockAt(owner, p);
    var t, k := owner[p].start, owner[p].order;
    AlignedWeaken(t, b, k);
    Pow2Monotone(b, k);
    assert FreeRun(owner, t, b);
  }

  lemma CoalescedIsPromised(owner: seq<Owner>)
    requires Tiled(owner) && Coalesced(owner)
    ensures Promised(owner)
  {
    hide Pow2, Aligned, FlipBit, Coalesced;
    forall b: nat | b < NUM_SIZES
      ensures Promise(owner, b)
    {
      if Placeable(owner, b) {
        var s: nat :| FreeRun(owner, s, b);
        RunInsideBlock(owner, s, b);
        assert owner[s].order >= b;
      }
      if SomeBlock(owner, b) {
        BlockIsPlaceable(owner, b);
      }
    }
  }

  // ----- two free buddies that stand apart -----

  /** The block of order `k` at `s` and its buddy are both free, and could be one block. */
  ghost predicate FreePair(owner: seq<Owner>, s: nat, k: nat) {
    && k + 1 < NUM_SIZES && s < |owner| && owner[s] == Free(s, k)
    && FlipBit(s, k) < |owner| && owner[FlipBit(s, k)] == Free(FlipBit(s, k), k)
  }

  lemma UncoalescedPair(owner: seq<Owner>) returns (s: nat, k: nat)
    requires !Coalesced(owner) && Tiled(owner)
    ensures FreePair(owner, s, k)
  {
    s :| s < |owner| && !NoFreeBuddy(owner, s);
    k := owner[s].order;
  }

  lemma PairIsPlaceable(owner: seq<Owner>, s: nat, k: nat)
    requires Tiled(owner) && FreePair(owner, s, k)
    ensures Placeable(owner, k + 1)
  {
    var b := FlipBit(s, k);
    assert BlockAt(owner, s) && BlockAt(owner, b);
    FlipBitIsBuddy(s, k);
    ParentHolds(s, k);
    ParentHolds(b, k);
    DoublePow2(k);
    hide Pow2, Aligned, FlipBit;
    assert FreeRun(owner, Parent(s, k), k + 1);
  }

  /** An allocation leaves the free blocks alone that are too small for it. */
  lemma SmallBlocksStay(was: seq<Owner>, now: seq<Owner>, o: nat, b: nat, p: nat)
    requires Allocated(was, now, o, b) && p < |was| && was[p].Free? && was[p].order < b
    ensures now[p] == was[p]
  {
    hide Pow2, CanonicalIn, NoneLoose;
  }

  lemma PairStays(was: seq<Owner>, now: seq<Owner>, o: nat, s: nat, k: nat)
    requires Allocated(was, now, o, k + 1) && FreePair(was, s, k)
    ensures FreePair(now, s, k)
  {
    SmallBlocksStay(was, now, o, k + 1, s);
    SmallBlocksStay(was, now, o, k + 1, FlipBit(s, k));
  }

  /** Once the blocks above order `k` are used up, the pair is a place for one that cannot be had. */
  lemma PairBreaksPromise(owner: seq<Owner>, s: nat, k: nat)
    requires Tiled(owner) && FreePair(owner, s, k) && !SomeBlock(owner, k + 1)
    ensures !Promised(owner)
  {
    PairIsPlaceable(owner, s, k);
    assert !Promise(owner, k + 1);
  }

  // ----- an allocation that can be made -----

  lemma GreedyOrder(i: nat, past: nat) returns (k: nat)
    requires i < past
    ensures Greedy(i, past, k)
  {
    k := 0;
    while k + 1 < NUM_SIZES && FitsAt(i, past, k + 1)
      invariant k < NUM_SIZES && FitsAt(i, past, k)
    {
      k := k + 1;
    }
  }

  /** A loose range can be cut canonically. */
  lemma CutExists(was: seq<Owner>, first: nat, past: nat) returns (now: seq<Owner>)
    requires Tiled(was) && past <= |was| && forall p | first <= p < past :: was[p] == Loose
    ensures |now| == |was| && Tiled(now) && CanonicalIn(now, first, past)
    ensures forall p | 0 <= p < |was| && !(first <= p < past) :: now[p] == was[p]
  {
    hide Pow2, Aligned, FlipBit, Tiled, NoStraddle, CutTo, CanonicalIn, Greedy;
    now := was;
    var i := first;
    CutStart(was, first, past);
    while i < past
      invariant Tiled(now) && |now| == |was| && CutTo(was, now, first, past, i) && NoStraddle(first, past, i)
      decreases past - i
    {
      var k := GreedyOrder(i, past);
      CutNext(was, now, first, past, i, k);
      GreedyFacts(i, past, k);
      TiledAfterBlock(now, i, k, Free(i, k));
      now := Paint(now, i, Pow2(k), Free(i, k));
      i := i + Pow2(k);
    }
    CutDone(was, now, first, past, i);
  }

  lemma GreedyFacts(i: nat, past: nat, k: nat)
    requires Greedy(i, past, k)
    ensures k < NUM_SIZES && Pow2(k) > 0
  {
  }

  /** Of the free blocks of order `b` or more one of least order. */
  lemma SmallestSufficient(owner: seq<Owner>, b: nat) returns (p: nat)
    requires SomeBlock(owner, b)
    ensures p < |owner| && owner[p].Free? && owner[p].order >= b
    ensures forall q | 0 <= q < |owner| && owner[q].Free? && owner[q].order >= b :: owner[q].order >= owner[p].order
  {
    p :| 0 <= p < |owner| && owner[p].Free? && owner[p].order >= b;
    while exists q :: 0 <= q < |owner| && owner[q].Free? && b <= owner[q].order < owner[p].order
      invariant 0 <= p < |owner| && owner[p].Free? && owner[p].order >= b
      decreases owner[p].order
    {
      var q :| 0 <= q < |owner| && owner[q].Free? && b <= owner[q].order < owner[p].order;
      p := q;
    }
  }

  /** Whenever some free block is large enough an allocation is possible. */
  lemma AllocationExists(was: seq<Owner>, b: nat) returns (now: seq<Owner>, o: nat)
    requires Tiled(was) && NoneLoose(was) && SomeBlock(was, b)
    ensures Tiled(now) && NoneLoose(now) && Allocated(was, now, o, b)
  {
    hide Pow2, Aligned, FlipBit, CanonicalIn, Carved;
    var p := SmallestSufficient(was, b);
    assert BlockAt(was, p);
    var r := was[p].order;
    o := was[p].start;
    assert was[o] == Free(o, r);
    Pow2Monotone(b, r);
    AlignedWeaken(o, b, r);
    var mid := Paint(was, o, Pow2(r), Loose);
    TiledAfterLoosen(was, o);
    TiledAfterBlock(mid, o, b, Live(o, b));
    var live := Paint(mid, o, Pow2(b), Live(o, b));
    hide Tiled;
    now := CutExists(live, o + Pow2(b), o + Pow2(r));
    AllocatedWhole(was, mid, now, o, b, r);
  }

  /** An allocation uses up free pages. */
  lemma AllocationTakesPages(was: seq<Owner>, now: seq<Owner>, o: nat, b: nat)
    requires Tiled(was) && Allocated(was, now, o, b)
    ensures FreePages(now) < FreePages(was)
  {
    AllocatedFrame(was, now, o, b);
    hide Allocated, Tiled, Pow2;
    CountLess(was, now, o, |was|);
  }

  lemma {:induction false} CountLess(was: seq<Owner>, now: seq<Owner>, o: nat, n: nat)
    requires |now| == |was| && n <= |was| && forall p | 0 <= p < |was| && now[p].Free? :: was[p].Free?
    requires o < |was| && was[o].Free? && !now[o].Free?
    ensures CountFree(now, n) <= CountFree(was, n)
    ensures o < n ==> CountFree(now, n) < CountFree(was, n)
  {
    if n > 0 {
      CountLess(was, now, o, n - 1);
    }
  }
}
