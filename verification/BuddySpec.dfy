/** What one call of the allocator does to the map of page owners. */
module BuddySpec {
  import opened Words
  import opened PowersOfTwo
  import opened ByteMap
  import opened BuddyModel
  import opened Coalescing
  import opened Products

  /** Pool memory, list heads and bit map all tell the same story about who owns what. */
  ghost predicate Consistent(mem: seq<Word>, heads: seq<Word>, bits: seq<bv8>, owner: seq<Owner>,
                             lists: seq<seq<Word>>) {
    && Tiled(owner) && BitsOk(bits, owner) && ListsOk(mem, heads, owner, lists)
    && Total(lists, NUM_SIZES) == FreePages(owner)
  }

  /** The owner of every page, and the blocks of every free list in order. */
  datatype Layout = Layout(owner: seq<Owner>, lists: seq<seq<Word>>)

  ghost predicate NoneLoose(owner: seq<Owner>) {
    forall p | 0 <= p < |owner| :: owner[p] != Loose
  }

  /** The allocator may write this page: no client and no unreleased area is on it. */
  predicate Ours(o: Owner) {
    o.Free? || o.Loose?
  }

  /** Words on pages that are not the allocator's are the same in both memories. */
  ghost predicate SameElsewhere(mem: seq<Word>, mem': seq<Word>, owner: seq<Owner>) {
    && |mem'| == |mem|
    && forall w: nat | w < |mem| && (w / PAGE_WORDS < |owner| ==> !Ours(owner[w / PAGE_WORDS])) :: mem'[w] == mem[w]
  }

  lemma SameElsewhereRefl(mem: seq<Word>, owner: seq<Owner>)
    ensures SameElsewhere(mem, mem, owner)
  {
  }

  lemma SameElsewhereGrow(mem: seq<Word>, mem': seq<Word>, mem'': seq<Word>, owner: seq<Owner>, owner': seq<Owner>)
    requires SameElsewhere(mem, mem', owner) && SameElsewhere(mem', mem'', owner')
    requires |owner'| == |owner| && forall p | 0 <= p < |owner| && Ours(owner[p]) :: Ours(owner'[p])
    ensures SameElsewhere(mem, mem'', owner')
  {
  }

  // ----- single steps -----

  lemma HeadOf(mem: seq<Word>, heads: seq<Word>, bits: seq<bv8>, owner: seq<Owner>, lists: seq<seq<Word>>, k: nat)
    requires Consistent(mem, heads, bits, owner, lists) && k < NUM_SIZES
    ensures |heads| == |lists| == NUM_SIZES && heads[k] == At(lists[k], 0)
    ensures |lists[k]| > 0 ==> heads[k] < |owner| && owner[heads[k]] == Free(heads[k], k)
    ensures heads[k] == OURNULL <==> lists[k] == []
  {
    hide Tiled, BitsOk, Total, FreePages, NodeAt;
    assert OrderOk(mem, heads[k], owner, lists[k], k);
  }

  /** The first block of a nonempty list and its successor, as the words in memory show them. */
  lemma FirstOf(mem: seq<Word>, heads: seq<Word>, bits: seq<bv8>, owner: seq<Owner>, lists: seq<seq<Word>>, k: nat)
    requires Consistent(mem, heads, bits, owner, lists) && k < NUM_SIZES && lists[k] != []
    ensures |heads| == NUM_SIZES && heads[k] == lists[k][0] < |owner|
    ensures Aligned(heads[k], k) && AllAre(owner, heads[k], Pow2(k), Free(heads[k], k))
    ensures NodeOk(mem, heads[k], k, OURNULL, At(lists[k], 1))
    ensures |lists[k]| > 1 ==> At(lists[k], 1) < |owner| && At(lists[k], 1) != OURNULL && At(lists[k], 1) != heads[k]
    ensures |lists[k]| > 1 ==> NodeOk(mem, At(lists[k], 1), k, heads[k], At(lists[k], 2))
  {
    hide BitsOk, Total, FreePages, Aligned, Pow2;
    assert OrderOk(mem, heads[k], owner, lists[k], k);
    assert BlockAt(owner, heads[k]);
    assert NodeAt(mem, lists[k], k, 0);
    if |lists[k]| > 1 {
      assert NodeAt(mem, lists[k], k, 1);
    }
  }

  lemma PushElsewhere(mem: seq<Word>, mem': seq<Word>, owner: seq<Owner>, list: seq<Word>, o: Word, k: nat)
    requires ListOk(owner, list, k) && AllAre(owner, o, Pow2(k), Loose) && PushWrites(mem, mem', list, o, k)
    ensures SameElsewhere(mem, mem', Paint(owner, o, Pow2(k), Free(o, k)))
  {
    hide Pow2;
    var owner' := Paint(owner, o, Pow2(k), Free(o, k));
    forall w: nat | w < |mem| && (w / PAGE_WORDS < |owner| ==> !Ours(owner'[w / PAGE_WORDS]))
      ensures mem'[w] == mem[w]
    {
    }
  }

  lemma PushConsistent(mem: seq<Word>, mem': seq<Word>, heads: seq<Word>, bits: seq<bv8>, owner: seq<Owner>,
                       lists: seq<seq<Word>>, o: Word, k: nat)
    requires Consistent(mem, heads, bits, owner, lists) && k < NUM_SIZES && Aligned(o, k)
    requires AllAre(owner, o, Pow2(k), Loose) && PushWrites(mem, mem', lists[k], o, k)
    ensures Consistent(mem', heads[k := o], bits, Paint(owner, o, Pow2(k), Free(o, k)), Pushed(lists, k, o))
    ensures SameElsewhere(mem, mem', Paint(owner, o, Pow2(k), Free(o, k)))
    ensures FreePages(Paint(owner, o, Pow2(k), Free(o, k))) == FreePages(owner) + Pow2(k)
  {
    hide Aligned, Pow2, Total, CountFree, FreePages, Tiled;
    assert OrderOk(mem, heads[k], owner, lists[k], k);
    PushKeepsLists(mem, mem', heads, owner, lists, o, k);
    TotalPush(lists, k, o);
    CountPaint(owner, o, Pow2(k), Free(o, k), false);
    BitsAfterUnmarked(bits, owner, o, Pow2(k), Free(o, k));
    TiledAfterBlock(owner, o, k, Free(o, k));
    PushElsewhere(mem, mem', owner, lists[k], o, k);
  }

  lemma UnlinkElsewhere(mem: seq<Word>, mem': seq<Word>, owner: seq<Owner>, list: seq<Word>, i: nat, k: nat)
    requires Tiled(owner) && ListOk(owner, list, k) && i < |list| && UnlinkWrites(mem, mem', list, i, k)
    ensures SameElsewhere(mem, mem', owner)
  {
    hide Pow2;
    var o := list[i];
    assert BlockAt(owner, o);
    forall w: nat | w < |mem| && (w / PAGE_WORDS < |owner| ==> !Ours(owner[w / PAGE_WORDS]))
      ensures mem'[w] == mem[w]
    {
    }
  }

  /** The list heads once element `i` of list `k` is off its list. */
  function HeadsWithout(heads: seq<Word>, list: seq<Word>, i: nat, k: nat): seq<Word>
    requires k < |heads|
  {
    if i == 0 then heads[k := At(list, 1)] else heads
  }

  lemma UnlinkConsistent(mem: seq<Word>, mem': seq<Word>, heads: seq<Word>, bits: seq<bv8>, owner: seq<Owner>,
                         lists: seq<seq<Word>>, i: nat, k: nat)
    requires Consistent(mem, heads, bits, owner, lists) && k < NUM_SIZES
    requires i < |lists[k]| && UnlinkWrites(mem, mem', lists[k], i, k)
    ensures Consistent(mem', HeadsWithout(heads, lists[k], i, k), bits,
                       Paint(owner, lists[k][i], Pow2(k), Loose), lists[k := Removed(lists[k], i)])
    ensures SameElsewhere(mem, mem', owner)
    ensures FreePages(Paint(owner, lists[k][i], Pow2(k), Loose)) == FreePages(owner) - Pow2(k)
  {
    hide Aligned, Pow2, Total, CountFree, FreePages;
    assert OrderOk(mem, heads[k], owner, lists[k], k);
    var o := lists[k][i];
    assert BlockAt(owner, o);
    UnlinkKeepsLists(mem, mem', heads, owner, lists, i, k);
    TotalRemove(lists, k, i);
    CountPaint(owner, o, Pow2(k), Loose, true);
    BitsAfterUnmarked(bits, owner, o, Pow2(k), Loose);
    TiledAfterLoosen(owner, o);
    UnlinkElsewhere(mem, mem', owner, lists[k], i, k);
  }

  /** The lists only speak about free blocks. */
  lemma ListsIgnoreOthers(mem: seq<Word>, heads: seq<Word>, owner: seq<Owner>, owner': seq<Owner>, lists: seq<seq<Word>>)
    requires ListsOk(mem, heads, owner, lists) && |owner'| == |owner|
    requires forall p | 0 <= p < |owner| :: owner[p].Free? || owner'[p].Free? ==> owner'[p] == owner[p]
    ensures ListsOk(mem, heads, owner', lists)
  {
    hide Pow2, Linked;
    forall k: nat | k < NUM_SIZES
      ensures OrderOk(mem, heads[k], owner', lists[k], k)
    {
      assert OrderOk(mem, heads[k], owner, lists[k], k);
      forall s: nat | s < |owner|
        ensures Listed(owner', lists[k], k, s)
      {
        assert Listed(owner, lists[k], k, s);
      }
    }
  }

  lemma UnlinkLayout(mem: seq<Word>, mem': seq<Word>, heads: seq<Word>, heads': seq<Word>, bits: seq<bv8>, l: Layout,
                     l': Layout, o: nat, i: nat, k: nat)
    requires Consistent(mem, heads, bits, l.owner, l.lists) && k < NUM_SIZES
    requires i < |l.lists[k]| && l.lists[k][i] == o && UnlinkWrites(mem, mem', l.lists[k], i, k)
    requires heads' == HeadsWithout(heads, l.lists[k], i, k)
    requires l' == Layout(Paint(l.owner, o, Pow2(k), Loose), l.lists[k := Removed(l.lists[k], i)])
    ensures Consistent(mem', heads', bits, l'.owner, l'.lists)
    ensures SameElsewhere(mem, mem', l.owner)
    ensures FreePages(l'.owner) == FreePages(l.owner) - Pow2(k)
    ensures |l'.owner| == |l.owner| && |l'.lists| == NUM_SIZES
  {
    hide *;
    UnlinkConsistent(mem, mem', heads, bits, l.owner, l.lists, i, k);
    ListsFacts(mem', heads', bits, l'.owner, l'.lists);
  }

  lemma LiveConsistent(mem: seq<Word>, heads: seq<Word>, bits: seq<bv8>, bits': seq<bv8>, owner: seq<Owner>,
                       lists: seq<seq<Word>>, o: nat, b: nat)
    requires Consistent(mem, heads, bits, owner, lists) && b < NUM_SIZES && Aligned(o, b)
    requires AllAre(owner, o, Pow2(b), Loose) && |bits'| == |bits|
    requires forall m: nat | m < 8 * |bits| :: Bit(bits', m) == (m == o + Pow2(b) - 1 || Bit(bits, m))
    ensures Consistent(mem, heads, bits', Paint(owner, o, Pow2(b), Live(o, b)), lists)
    ensures FreePages(Paint(owner, o, Pow2(b), Live(o, b))) == FreePages(owner)
  {
    hide Aligned, Pow2, Total, CountFree, FreePages, ListsOk, Bit;
    var owner' := Paint(owner, o, Pow2(b), Live(o, b));
    CountPaint(owner, o, Pow2(b), Live(o, b), false);
    TiledAfterBlock(owner, o, b, Live(o, b));
    ListsIgnoreOthers(mem, heads, owner, owner', lists);
    assert BitsOk(bits', owner') by {
      forall p: nat | p < |owner|
        ensures Bit(bits', p) == Marked(owner', p)
      {
        assert Bit(bits, p) == Marked(owner, p);
      }
    }
  }

  lemma LoosenLiveConsistent(mem: seq<Word>, heads: seq<Word>, bits: seq<bv8>, bits': seq<bv8>, owner: seq<Owner>,
                             lists: seq<seq<Word>>, o: nat)
    requires Consistent(mem, heads, bits, owner, lists) && o < |owner| && owner[o].Live? && owner[o].start == o
    requires |bits'| == |bits|
    requires forall m: nat | m < 8 * |bits| :: Bit(bits', m) == (m != o + Pow2(owner[o].order) - 1 && Bit(bits, m))
    ensures Consistent(mem, heads, bits', Paint(owner, o, Pow2(owner[o].order), Loose), lists)
    ensures FreePages(Paint(owner, o, Pow2(owner[o].order), Loose)) == FreePages(owner)
    ensures AllAre(Paint(owner, o, Pow2(owner[o].order), Loose), o, Pow2(owner[o].order), Loose)
  {
    hide Aligned, Pow2, Total, CountFree, FreePages, ListsOk, Bit;
    var k := owner[o].order;
    var owner' := Paint(owner, o, Pow2(k), Loose);
    assert BlockAt(owner, o);
    CountPaint(owner, o, Pow2(k), Loose, false);
    TiledAfterLoosen(owner, o);
    ListsIgnoreOthers(mem, heads, owner, owner', lists);
    assert BitsOk(bits', owner') by {
      forall p: nat | p < |owner|
        ensures Bit(bits', p) == Marked(owner', p)
      {
        assert Bit(bits, p) == Marked(owner, p);
        assert BlockAt(owner, p);
      }
    }
  }

  // ----- whole calls -----

  /** A block of order `b` at `o` was carved from the start of the free block there: that block was the
      smallest sufficient one, and what is left of it is cut canonically. */
  ghost predicate Allocated(was: seq<Owner>, now: seq<Owner>, o: nat, b: nat) {
    Carved(was, now, o, b) && NoneLoose(now)
  }

  ghost predicate Carved(was: seq<Owner>, now: seq<Owner>, o: nat, b: nat) {
    && |now| == |was| && o < |was|
    && was[o].Free? && was[o].start == o && b <= was[o].order < NUM_SIZES
    && o + Pow2(b) <= o + Pow2(was[o].order) <= |was|
    && (forall p | 0 <= p < |was| && was[p].Free? && was[p].order >= b :: was[p].order >= was[o].order)
    && (forall p | o <= p < o + Pow2(was[o].order) :: was[p] == was[o])
    && (forall p | o <= p < o + Pow2(b) :: now[p] == Live(o, b))
    && CanonicalIn(now, o + Pow2(b), o + Pow2(was[o].order))
    && (forall p | 0 <= p < |was| && !(o <= p < o + Pow2(was[o].order)) :: now[p] == was[p])
  }

  /** The live block at `o` was given back and ended up in the free block (m, k): the rest of that
      block was free before, and it could not be merged further. */
  ghost predicate FreedInto(was: seq<Owner>, now: seq<Owner>, o: nat, m: nat, k: nat) {
    && o < |was| && was[o].Live? && was[o].start == o
    && k < NUM_SIZES && Aligned(m, k) && m <= o && o + Pow2(was[o].order) <= m + Pow2(k) <= |was|
    && (forall p | m <= p < m + Pow2(k) && !(o <= p < o + Pow2(was[o].order)) :: was[p].Free?)
    && now == Paint(was, m, Pow2(k), Free(m, k))
    && (k + 1 < NUM_SIZES && FlipBit(m, k) < |was| ==> was[FlipBit(m, k)] != Free(FlipBit(m, k), k))
  }

  /** The live block at `o` was given back, and nothing is left loose. */
  ghost predicate FreedTo(was: seq<Owner>, now: seq<Owner>, o: nat) {
    (exists m: nat, k: nat :: FreedInto(was, now, o, m, k)) && NoneLoose(now)
  }

  // ----- parts of BuddyMalloc -----

  lemma SameElsewhereShrink(mem: seq<Word>, mem': seq<Word>, owner: seq<Owner>, owner': seq<Owner>)
    requires SameElsewhere(mem, mem', owner) && |owner'| == |owner|
    requires forall p | 0 <= p < |owner| && Ours(owner[p]) :: Ours(owner'[p])
    ensures SameElsewhere(mem, mem', owner')
  {
  }

  lemma SameElsewhereSame(mem: seq<Word>, mem': seq<Word>, mem'': seq<Word>, owner: seq<Owner>, owner': seq<Owner>)
    requires SameElsewhere(mem, mem', owner) && SameElsewhere(mem', mem'', owner')
    requires |owner'| == |owner| && forall p | 0 <= p < |owner| :: Ours(owner'[p]) ==> Ours(owner[p])
    ensures SameElsewhere(mem, mem'', owner)
  {
  }

  lemma ListsFacts(mem: seq<Word>, heads: seq<Word>, bits: seq<bv8>, owner: seq<Owner>, lists: seq<seq<Word>>)
    requires Consistent(mem, heads, bits, owner, lists)
    ensures Tiled(owner) && BitsOk(bits, owner) && |lists| == NUM_SIZES
    ensures FreePages(owner) == Total(lists, NUM_SIZES)
  {
  }

  lemma TooFewPages(mem: seq<Word>, heads: seq<Word>, bits: seq<bv8>, owner: seq<Owner>, lists: seq<seq<Word>>, b: nat)
    requires Consistent(mem, heads, bits, owner, lists) && FreePages(owner) < Pow2(b)
    ensures forall k: nat | b <= k < NUM_SIZES :: lists[k] == []
  {
    hide Pow2, Total, FreePages;
    forall k: nat | b <= k < NUM_SIZES
      ensures lists[k] == []
    {
      TotalCoversList(lists, NUM_SIZES, k);
      Pow2Monotone(b, k);
      if lists[k] != [] {
        MulAtLeast(|lists[k]|, Pow2(k));
      }
    }
  }

  lemma BestFit(mem: seq<Word>, heads: seq<Word>, bits: seq<bv8>, owner: seq<Owner>, lists: seq<seq<Word>>, b: nat, r: nat)
    requires Consistent(mem, heads, bits, owner, lists) && r < NUM_SIZES
    requires forall k: nat | b <= k < r :: lists[k] == []
    ensures forall p | 0 <= p < |owner| && owner[p].Free? && owner[p].order >= b :: owner[p].order >= r
  {
    hide Pow2, Total, FreePages, Aligned;
    forall p | 0 <= p < |owner| && owner[p].Free? && owner[p].order >= b
      ensures owner[p].order >= r
    {
      assert BlockAt(owner, p);
      var s, k := owner[p].start, owner[p].order;
      assert owner[s] == Free(s, k);
      assert OrderOk(mem, heads[k], owner, lists[k], k);
      assert Listed(owner, lists[k], k, s);
    }
  }

  lemma PlaceFacts(mem: seq<Word>, heads: seq<Word>, bits: seq<bv8>, owner: seq<Owner>, lists: seq<seq<Word>>, b: nat, r: nat)
    requires Consistent(mem, heads, bits, owner, lists) && r < NUM_SIZES && lists[r] != []
    requires forall k: nat | b <= k < r :: lists[k] == []
    ensures Tiled(owner) && Pow2(r) <= FreePages(owner)
    ensures forall p | 0 <= p < |owner| && owner[p].Free? && owner[p].order >= b :: owner[p].order >= r
  {
    hide Tiled, BitsOk, FreePages, Total;
    BestFit(mem, heads, bits, owner, lists, b, r);
    TotalCoversList(lists, NUM_SIZES, r);
    MulAtLeast(|lists[r]|, Pow2(r));
  }

  lemma CarvedWhole(was: seq<Owner>, now: seq<Owner>, o: nat, b: nat, r: nat)
    requires |now| == |was| && b <= r < NUM_SIZES
    requires AllAre(was, o, Pow2(r), Free(o, r))
    requires forall p | 0 <= p < |was| && was[p].Free? && was[p].order >= b :: was[p].order >= r
    requires o + Pow2(b) <= o + Pow2(r) && CanonicalIn(now, o + Pow2(b), o + Pow2(r))
    requires forall p | o <= p < o + Pow2(b) :: now[p] == Live(o, b)
    requires forall p | 0 <= p < |now| && !(o <= p < o + Pow2(r)) :: now[p] == was[p]
    ensures Carved(was, now, o, b)
  {
    hide Pow2, CanonicalIn;
    assert was[o] == Free(o, r);
  }

  /** The front of the block of order `r` at `o` is live now, the rest of it is cut canonically, and nothing
      else has changed. */
  ghost predicate CutFront(was: seq<Owner>, now: seq<Owner>, o: nat, b: nat, r: nat) {
    && |now| == |was| && AllAre(now, o, Pow2(b), Live(o, b))
    && o + Pow2(b) <= o + Pow2(r) && CanonicalIn(now, o + Pow2(b), o + Pow2(r))
    && forall p | 0 <= p < |now| && !(o <= p < o + Pow2(r)) :: now[p] == was[p]
  }

  lemma AllocatedWhole(was: seq<Owner>, mid: seq<Owner>, now: seq<Owner>, o: nat, b: nat, r: nat)
    requires b <= r < NUM_SIZES
    requires AllAre(was, o, Pow2(r), Free(o, r)) && mid == Paint(was, o, Pow2(r), Loose)
    requires forall p | 0 <= p < |was| && was[p].Free? && was[p].order >= b :: was[p].order >= r
    requires CutFront(mid, now, o, b, r) && NoneLoose(was)
    ensures Allocated(was, now, o, b)
  {
    hide Pow2, NoneLoose, CanonicalIn, Carved;
    CarvedWhole(was, now, o, b, r);
    CarvedNoneLoose(was, now, o, b, r);
  }

  lemma CarvedNoneLoose(was: seq<Owner>, now: seq<Owner>, o: nat, b: nat, r: nat)
    requires |now| == |was| && o + Pow2(b) <= o + Pow2(r) && CanonicalIn(now, o + Pow2(b), o + Pow2(r))
    requires forall p | o <= p < o + Pow2(b) :: p < |now| ==> now[p] == Live(o, b)
    requires forall p | 0 <= p < |now| && !(o <= p < o + Pow2(r)) :: now[p] == was[p]
    requires NoneLoose(was)
    ensures NoneLoose(now)
  {
    hide Aligned, Pow2;
    forall p: nat | p < |now|
      ensures now[p] != Loose
    {
      if o + Pow2(b) <= p < o + Pow2(r) {
        assert MaximalAt(now, o + Pow2(b), o + Pow2(r), p);
      }
    }
  }

  lemma PaintedLooseStays(was: seq<Owner>, o: nat, n: nat, m: nat, live: Owner)
    requires AllAre(was, o, m, Loose) && n <= m
    ensures AllAre(was, o, n, Loose)
    ensures |Paint(was, o, n, live)| == |was| && o + m <= |was|
    ensures forall p | o + n <= p < o + m :: Paint(was, o, n, live)[p] == Loose
  {
  }

  lemma CarveFacts(mem: seq<Word>, mem': seq<Word>, was: seq<Owner>, mid: seq<Owner>, now: seq<Owner>, o: nat, b: nat, r: nat)
    requires AllAre(was, o, Pow2(r), Loose) && Pow2(b) <= Pow2(r) && mid == Paint(was, o, Pow2(b), Live(o, b))
    requires |now| == |was| && forall p | 0 <= p < |now| && !(o + Pow2(b) <= p < o + Pow2(r)) :: now[p] == mid[p]
    requires SameElsewhere(mem, mem', now)
    requires CanonicalIn(now, o + Pow2(b), o + Pow2(r))
    ensures CutFront(was, now, o, b, r)
    ensures SameElsewhere(mem, mem', was)
  {
    hide Pow2, SameElsewhere, CanonicalIn;
    SameElsewhereShrink(mem, mem', now, was);
  }

  // ----- what keeps free blocks coalesced -----

  /** The front of the block at `o` went to a client, and the rest of it was cut canonically. */
  lemma SplitKeepsCoalesced(was: seq<Owner>, now: seq<Owner>, o: nat, b: nat, r: nat)
    requires Tiled(now) && |now| == |was| && b <= r < NUM_SIZES && Aligned(o, r) && o + Pow2(r) <= |was|
    requires o + Pow2(b) <= o + Pow2(r) && CanonicalIn(now, o + Pow2(b), o + Pow2(r))
    requires forall p | o <= p < o + Pow2(b) :: now[p] == Live(o, b)
    requires forall p | 0 <= p < |now| && !(o <= p < o + Pow2(r)) :: now[p] == was[p]
    requires Coalesced(was)
    ensures Coalesced(now)
  {
    hide Aligned, Pow2, MaximalAt, Coalesced, CanonicalIn, NoCross;
    var mid := Paint(was, o, Pow2(r), Loose);
    LoosenKeepsCoalesced(was, o, Pow2(r), Loose);
    LoosenKeepsCoalesced(mid, o, Pow2(b), Live(o, b));
    SplitDoesNotCross(now, o, r, o + Pow2(b));
    FillKeepsCoalesced(Paint(mid, o, Pow2(b), Live(o, b)), now, o + Pow2(b), o + Pow2(r));
  }

  lemma AllocatedKeepsCoalesced(was: seq<Owner>, now: seq<Owner>, o: nat, b: nat)
    requires Tiled(was) && Tiled(now) && Allocated(was, now, o, b) && Coalesced(was)
    ensures Coalesced(now)
  {
    assert BlockAt(was, o);
    hide Tiled, CanonicalIn, Coalesced, Aligned, Pow2, NoneLoose;
    SplitKeepsCoalesced(was, now, o, b, was[o].order);
  }

  lemma ShrunkKeepsCoalesced(was: seq<Owner>, now: seq<Owner>, o: nat, j: nat)
    requires Tiled(was) && Tiled(now) && ShrunkTo(was, now, o, j) && Coalesced(was)
    ensures Coalesced(now)
  {
    assert BlockAt(was, o);
    hide Tiled, CanonicalIn, Coalesced, Aligned, Pow2, NoneLoose;
    SplitKeepsCoalesced(was, now, o, j, was[o].order);
  }

  /** A block that is merged until its buddy is not a free block of its order has no free buddy, and is
      the buddy of no other free block. */
  lemma FreedKeepsCoalesced(was: seq<Owner>, now: seq<Owner>, o: nat)
    requires Tiled(was) && FreedTo(was, now, o) && Coalesced(was)
    ensures Coalesced(now)
  {
    var m: nat, k: nat :| FreedInto(was, now, o, m, k);
    FlipBitIsBuddy(m, k);
    forall s: nat | s < |now|
      ensures NoFreeBuddy(now, s)
    {
      assert NoFreeBuddy(was, s) && BlockAt(was, s);
      FlipTwice(s, k);
      hide Pow2, FlipBit, Aligned;
      if s != m && now[s].Free? && now[s].start == s {
        assert !(m <= s < m + Pow2(k));
      }
    }
  }

  lemma MovedKeepsCoalesced(was: seq<Owner>, now: seq<Owner>, o: nat, n: nat, b: nat)
    requires Tiled(was) && MovedTo(was, now, o, n, b) && Coalesced(was)
    ensures Coalesced(now)
  {
    hide Tiled, Allocated, FreedTo, Coalesced;
    var mid: seq<Owner> :| Tiled(mid) && Allocated(was, mid, n, b) && FreedTo(mid, now, o);
    AllocatedKeepsCoalesced(was, mid, n, b);
    FreedKeepsCoalesced(mid, now, o);
  }

  // ----- sizes -----

  /** The smallest order whose block holds `bytes`. */
  function OrderFor(bytes: nat): (k: nat)
    decreases bytes
  {
    if bytes <= PAGE_BYTES then 0 else 1 + OrderFor((bytes + 1) / 2)
  }

  lemma {:induction false} OrderForFits(bytes: nat, k: nat)
    ensures bytes <= PAGE_BYTES * Pow2(k) <==> OrderFor(bytes) <= k
    decreases k
  {
    if bytes <= PAGE_BYTES {
      Pow2Monotone(0, k);
    } else if k > 0 {
      OrderForFits((bytes + 1) / 2, k - 1);
      assert Pow2(k) == 2 * Pow2(k - 1);
    }
  }

  /** Some free block has order `b` or more. */
  ghost predicate SomeBlock(owner: seq<Owner>, b: nat) {
    exists p :: 0 <= p < |owner| && owner[p].Free? && owner[p].order >= b
  }

  lemma EmptyListsMeanNoBlock(mem: seq<Word>, heads: seq<Word>, bits: seq<bv8>, owner: seq<Owner>, lists: seq<seq<Word>>, b: nat)
    requires Consistent(mem, heads, bits, owner, lists)
    ensures (forall k: nat | b <= k < NUM_SIZES :: lists[k] == []) <==> !SomeBlock(owner, b)
    ensures Coalesced(owner) ==> (SomeBlock(owner, b) <==> b < NUM_SIZES && Placeable(owner, b))
  {
    hide Pow2, Total, FreePages, Aligned, BitsOk;
    if forall k: nat | b <= k < NUM_SIZES :: lists[k] == [] {
      BestFit13(mem, heads, owner, lists, b);
    }
    forall k: nat | b <= k < NUM_SIZES && lists[k] != []
      ensures SomeBlock(owner, b)
    {
      assert OrderOk(mem, heads[k], owner, lists[k], k);
      assert owner[lists[k][0]].order >= b;
    }
    if Coalesced(owner) && b < NUM_SIZES {
      FailureIsFinal(mem, heads, owner, lists, b);
    }
  }

  lemma BestFit13(mem: seq<Word>, heads: seq<Word>, owner: seq<Owner>, lists: seq<seq<Word>>, b: nat)
    requires Tiled(owner) && ListsOk(mem, heads, owner, lists)
    requires forall k: nat | b <= k < NUM_SIZES :: lists[k] == []
    ensures !SomeBlock(owner, b)
  {
    hide Pow2, Aligned;
    forall p: nat | p < |owner| && owner[p].Free?
      ensures owner[p].order < b
    {
      assert BlockAt(owner, p);
      var s, k := owner[p].start, owner[p].order;
      assert owner[s] == Free(s, k);
      assert OrderOk(mem, heads[k], owner, lists[k], k);
      assert Listed(owner, lists[k], k, s);
    }
  }

  // ----- the size of a live block, from the bit map alone -----

  ghost predicate NoEndBelow(bits: seq<bv8>, blocks: nat, off: nat, n: nat)
    requires blocks <= 8 * |bits|
  {
    forall j: nat | j < n :: FitsAt(off, blocks, j) && !Bit(bits, off + Pow2(j) - 1)
  }

  /** The first order, among those aligned and in range, at which the bit map shows an end. */
  ghost predicate EndsAt(bits: seq<bv8>, blocks: nat, off: nat, k: nat)
    requires blocks <= 8 * |bits|
  {
    && k < NUM_SIZES && Aligned(off, k) && off + Pow2(k) <= blocks
    && Bit(bits, off + Pow2(k) - 1)
    && NoEndBelow(bits, blocks, off, k)
  }

  /** For a live block the probe finds exactly the order it has. */
  lemma LiveSize(bits: seq<bv8>, owner: seq<Owner>, off: nat)
    requires Tiled(owner) && BitsOk(bits, owner) && off < |owner| && owner[off].Live? && owner[off].start == off
    ensures EndsAt(bits, |owner|, off, owner[off].order)
  {
    hide Aligned, Pow2, Bit;
    var k := owner[off].order;
    assert BlockAt(owner, off);
    assert Bit(bits, off + Pow2(k) - 1) == Marked(owner, off + Pow2(k) - 1);
    forall j: nat | j < k
      ensures FitsAt(off, |owner|, j) && !Bit(bits, off + Pow2(j) - 1)
    {
      AlignedWeaken(off, j, k);
      Pow2Monotone(j, k);
      assert Bit(bits, off + Pow2(j) - 1) == Marked(owner, off + Pow2(j) - 1);
      assert owner[off + Pow2(j) - 1] == owner[off];
    }
  }

  lemma ProbeStart(bits: seq<bv8>, blocks: nat, off: nat)
    requires blocks <= 8 * |bits|
    ensures Pow2(0) == 1 && NoEndBelow(bits, blocks, off, 0)
  {
  }

  lemma ProbeStep(bits: seq<bv8>, blocks: nat, off: nat, n: nat)
    requires blocks <= 8 * |bits| && NoEndBelow(bits, blocks, off, n) && n < NUM_SIZES && FitsAt(off, blocks, n)
    ensures if Bit(bits, off + Pow2(n) - 1) then EndsAt(bits, blocks, off, n) else NoEndBelow(bits, blocks, off, n + 1)
  {
    hide Aligned, Pow2, Bit;
  }

  lemma EndsAtOnce(bits: seq<bv8>, blocks: nat, off: nat, j: nat, k: nat)
    requires blocks <= 8 * |bits| && EndsAt(bits, blocks, off, j) && EndsAt(bits, blocks, off, k)
    ensures j == k
  {
    hide Aligned, Pow2, Bit;
  }

  lemma NoEnd(bits: seq<bv8>, blocks: nat, off: nat, n: nat)
    requires blocks <= 8 * |bits| && (n >= NUM_SIZES || !FitsAt(off, blocks, n))
    requires NoEndBelow(bits, blocks, off, n)
    ensures forall k: nat :: !EndsAt(bits, blocks, off, k)
  {
    hide Aligned, Pow2, Bit;
    forall k: nat
      ensures !EndsAt(bits, blocks, off, k)
    {
      if n <= k && EndsAt(bits, blocks, off, k) {
        FitsSmaller(off, blocks, n, k);
      }
    }
  }

  // ----- parts of Free -----

  /** A free block stands at some place `i` of its list; its words and its neighbours' words agree. */
  lemma NeighboursOf(mem: seq<Word>, heads: seq<Word>, bits: seq<bv8>, owner: seq<Owner>, lists: seq<seq<Word>>,
                     o: nat, k: nat) returns (i: nat, prev: Word, next: Word)
    requires Consistent(mem, heads, bits, owner, lists) && k < NUM_SIZES && o < |owner| && owner[o] == Free(o, k)
    ensures |heads| == |lists| == NUM_SIZES && i < |lists[k]| && lists[k][i] == o
    ensures o + Pow2(k) <= |owner| && heads[k] != OURNULL
    ensures prev == At(lists[k], i - 1) && next == At(lists[k], i + 1)
    ensures (prev == OURNULL <==> i == 0) && (next == OURNULL <==> i + 1 == |lists[k]|)
    ensures mem[PAGE_WORDS * o] == MAGIC && mem[PAGE_WORDS * o + 1] == prev && mem[PAGE_WORDS * o + 2] == next
    ensures prev != OURNULL ==> BesideWith(mem, owner, o, k, prev) && mem[PAGE_WORDS * prev + 2] == o
    ensures next != OURNULL ==> BesideWith(mem, owner, o, k, next) && mem[PAGE_WORDS * next + 1] == o
    ensures prev != OURNULL ==> prev != next
  {
    hide Pow2, Aligned, BitsOk, Total, FreePages;
    i := FreeBlockListed(mem, heads, owner, lists, o, k);
    prev, next := At(lists[k], i - 1), At(lists[k], i + 1);
    assert OrderOk(mem, heads[k], owner, lists[k], k);
    assert BlockAt(owner, o);
    if i > 0 {
      assert NodeAt(mem, lists[k], k, i - 1);
      FreeBlocksApart(owner, lists[k][i - 1], k, o, k);
    }
    if i + 1 < |lists[k]| {
      assert NodeAt(mem, lists[k], k, i + 1);
      FreeBlocksApart(owner, lists[k][i + 1], k, o, k);
    }
  }

  ghost predicate BesideWith(mem: seq<Word>, owner: seq<Owner>, o: nat, k: nat, n: Word) {
    n < |owner| && PAGE_WORDS * |owner| <= |mem| && mem[PAGE_WORDS * n] == MAGIC && (n < o || o + Pow2(k) <= n)
  }

  lemma UnlinkWritesIntro(mem: seq<Word>, mem': seq<Word>, list: seq<Word>, i: nat, k: nat, prev: Word, next: Word)
    requires i < |list| && prev == At(list, i - 1) && next == At(list, i + 1)
    requires (prev == OURNULL <==> i == 0) && (next == OURNULL <==> i + 1 == |list|) && |mem'| == |mem|
    requires forall w: nat | w < |mem| && !(PAGE_WORDS * list[i] <= w < PAGE_WORDS * (list[i] + Pow2(k))) ::
               mem'[w] == if next != OURNULL && w == PAGE_WORDS * next + 1 then prev
                          else if prev != OURNULL && w == PAGE_WORDS * prev + 2 then next
                          else mem[w]
    ensures UnlinkWrites(mem, mem', list, i, k)
  {
    hide Pow2;
  }

  /** The block given back has grown to (m, k): the pages of that block are loose, all else is as before. */
  ghost predicate MergedTo(was: seq<Owner>, owner: seq<Owner>, o: nat, m: nat, k: nat) {
    && o < |was| && was[o].Live? && was[o].start == o && NoneLoose(was)
    && was[o].order <= k < NUM_SIZES && Aligned(m, k)
    && m <= o && o + Pow2(was[o].order) <= m + Pow2(k) <= |was|
    && owner == Paint(was, m, Pow2(k), Loose)
    && (forall p | m <= p < m + Pow2(k) && !(o <= p < o + Pow2(was[o].order)) :: was[p].Free?)
  }

  lemma MergeStart(was: seq<Owner>, o: nat)
    requires Tiled(was) && NoneLoose(was) && o < |was| && was[o].Live? && was[o].start == o
    ensures MergedTo(was, Paint(was, o, Pow2(was[o].order), Loose), o, o, was[o].order)
  {
    assert BlockAt(was, o);
  }

  lemma MergeStep(was: seq<Owner>, owner: seq<Owner>, o: nat, m: nat, k: nat)
    requires Tiled(owner) && MergedTo(was, owner, o, m, k) && k + 1 < NUM_SIZES
    requires FlipBit(m, k) < |owner| && owner[FlipBit(m, k)] == Free(FlipBit(m, k), k)
    ensures var b := FlipBit(m, k);
            MergedTo(was, Paint(owner, b, Pow2(k), Loose), o, if b < m then b else m, k + 1)
  {
    var b := FlipBit(m, k);
    FlipBitIsBuddy(m, k);
    DoublePow2(k);
    hide Pow2, Aligned, FlipBit;
    assert BlockAt(owner, b);
    var m' := if b < m then b else m;
    assert Paint(owner, b, Pow2(k), Loose) == Paint(was, m', Pow2(k + 1), Loose);
    forall p | b <= p < b + Pow2(k)
      ensures was[p].Free?
    {
      assert owner[p] == Free(b, k);
    }
  }

  /** What `TrailerIsGenuine` says, at any moment of the merging loop. */
  lemma MergeProbe(was: seq<Owner>, mem: seq<Word>, heads: seq<Word>, bits: seq<bv8>, owner: seq<Owner>,
                   lists: seq<seq<Word>>, o: nat, m: nat, k: nat)
    requires Consistent(mem, heads, bits, owner, lists) && MergedTo(was, owner, o, m, k) && k + 1 < NUM_SIZES
    requires FlipBit(m, k) + Pow2(k) <= |owner| && !Bit(bits, FlipBit(m, k) + Pow2(k) - 1)
    ensures PAGE_WORDS * (FlipBit(m, k) + Pow2(k)) <= |mem|
    ensures var trailer := mem[PAGE_WORDS * (FlipBit(m, k) + Pow2(k)) - 1];
            && LEN_OFFSET <= trailer < LEN_OFFSET + NUM_SIZES
            && (trailer == k + LEN_OFFSET <==> owner[FlipBit(m, k)] == Free(FlipBit(m, k), k))
  {
    hide Pow2, Aligned, FlipBit, Bit, Total, FreePages;
    TrailerIsGenuine(bits, mem, heads, owner, lists, m, k);
  }

  lemma FreeBuddyShows(was: seq<Owner>, bits: seq<bv8>, owner: seq<Owner>, o: nat, m: nat, k: nat)
    requires Tiled(was) && BitsOk(bits, owner) && MergedTo(was, owner, o, m, k)
    requires FlipBit(m, k) < |was| && was[FlipBit(m, k)] == Free(FlipBit(m, k), k)
    ensures var b := FlipBit(m, k);
            b + Pow2(k) <= |owner| && owner[b] == Free(b, k) && !Bit(bits, b + Pow2(k) - 1)
  {
    var b := FlipBit(m, k);
    FlipBitIsBuddy(m, k);
    hide Pow2, Aligned, FlipBit, Bit;
    assert BlockAt(was, b);
    assert owner[b] == was[b] && owner[b + Pow2(k) - 1] == was[b + Pow2(k) - 1];
    assert Bit(bits, b + Pow2(k) - 1) == Marked(owner, b + Pow2(k) - 1);
  }

  /** The three ways out of the merging loop all mean that the block cannot be merged further. */
  lemma MergeDone(was: seq<Owner>, bits: seq<bv8>, owner: seq<Owner>, o: nat, m: nat, k: nat)
    requires Tiled(owner) && BitsOk(bits, owner) && MergedTo(was, owner, o, m, k)
    requires k + 1 < NUM_SIZES && FlipBit(m, k) + Pow2(k) <= |owner| ==>
               Bit(bits, FlipBit(m, k) + Pow2(k) - 1) || owner[FlipBit(m, k)] != Free(FlipBit(m, k), k)
    requires Tiled(was)
    ensures FreedTo(was, Paint(owner, m, Pow2(k), Free(m, k)), o)
  {
    var b := FlipBit(m, k);
    FlipBitIsBuddy(m, k);
    hide Pow2, Aligned, FlipBit, Bit, Coalesced;
    var now := Paint(owner, m, Pow2(k), Free(m, k));
    assert now == Paint(was, m, Pow2(k), Free(m, k));
    assert FreedInto(was, now, o, m, k) by {
      if k + 1 < NUM_SIZES && b < |was| && was[b] == Free(b, k) {
        FreeBuddyShows(was, bits, owner, o, m, k);
      }
    }
  }

  lemma MergeShape(was: seq<Owner>, owner: seq<Owner>, o: nat, m: nat, k: nat)
    requires MergedTo(was, owner, o, m, k)
    ensures k < NUM_SIZES && |owner| == |was| && m + Pow2(k) <= |owner| && Aligned(m, k)
    ensures AllAre(owner, m, Pow2(k), Loose)
  {
  }

  lemma SameElsewhereMerge(mem: seq<Word>, mem': seq<Word>, mem'': seq<Word>, owner: seq<Owner>, owner': seq<Owner>, b: nat, k: nat)
    requires SameElsewhere(mem, mem', owner) && SameElsewhere(mem', mem'', owner)
    requires owner' == Paint(owner, b, Pow2(k), Loose)
    ensures SameElsewhere(mem, mem'', owner')
  {
    hide Pow2;
  }

  /** A live block starts at page `o`. */
  ghost predicate LiveAt(owner: seq<Owner>, o: nat) {
    o < |owner| && owner[o].Live? && owner[o].start == o
  }

  lemma LiveBlockFacts(mem: seq<Word>, heads: seq<Word>, bits: seq<bv8>, l: Layout, o: nat)
    requires Consistent(mem, heads, bits, l.owner, l.lists) && LiveAt(l.owner, o)
    ensures Tiled(l.owner) && BitsOk(bits, l.owner)
    ensures l.owner[o].order < NUM_SIZES && Aligned(o, l.owner[o].order)
    ensures AllAre(l.owner, o, Pow2(l.owner[o].order), l.owner[o])
    ensures PAGE_WORDS * (o + Pow2(l.owner[o].order)) <= |mem|
    ensures FreePages(l.owner) + Pow2(l.owner[o].order) <= |l.owner|
  {
    hide Pow2, Total, FreePages, Aligned;
    assert BlockAt(l.owner, o);
    var k := l.owner[o].order;
    CountPaint(l.owner, o, Pow2(k), Free(o, k), false);
    assert FreePages(Paint(l.owner, o, Pow2(k), Free(o, k))) <= |l.owner|;
  }

  lemma LiveSizes(mem: seq<Word>, heads: seq<Word>, bits: seq<bv8>, l: Layout)
    requires Consistent(mem, heads, bits, l.owner, l.lists)
    ensures |l.owner| <= 8 * |bits|
    ensures forall o: nat | LiveAt(l.owner, o) :: EndsAt(bits, |l.owner|, o, l.owner[o].order)
  {
    hide Consistent, EndsAt;
    ListsFacts(mem, heads, bits, l.owner, l.lists);
    forall o: nat | LiveAt(l.owner, o)
      ensures EndsAt(bits, |l.owner|, o, l.owner[o].order)
    {
      LiveSize(bits, l.owner, o);
    }
  }

  lemma FreedFacts(was: seq<Owner>, now: seq<Owner>, o: nat)
    requires FreedTo(was, now, o)
    ensures |now| == |was| && NoneLoose(now)
  {
  }

  lemma SameElsewherePush(mem: seq<Word>, mem': seq<Word>, mem'': seq<Word>, owner: seq<Owner>, owner': seq<Owner>, o: nat, k: nat)
    requires SameElsewhere(mem, mem', owner) && SameElsewhere(mem', mem'', owner')
    requires owner' == Paint(owner, o, Pow2(k), Free(o, k))
    ensures SameElsewhere(mem, mem'', owner')
  {
    hide Pow2;
  }

  // ----- Realloc -----

  /** The live block at `o` was cut down to order `j`; what it lost is cut canonically into free blocks. */
  ghost predicate ShrunkTo(was: seq<Owner>, now: seq<Owner>, o: nat, j: nat) {
    && LiveAt(was, o) && |now| == |was| && j < was[o].order
    && o + Pow2(j) <= o + Pow2(was[o].order) <= |was|
    && AllAre(now, o, Pow2(j), Live(o, j))
    && CanonicalIn(now, o + Pow2(j), o + Pow2(was[o].order))
    && (forall p | 0 <= p < |was| && !(o <= p < o + Pow2(was[o].order)) :: now[p] == was[p])
    && NoneLoose(now)
  }

  lemma ShrinkConsistent(mem: seq<Word>, heads: seq<Word>, bits: seq<bv8>, bits': seq<bv8>, was: Layout,
                         mid: seq<Owner>, o: nat, j: nat)
    requires Consistent(mem, heads, bits, was.owner, was.lists) && LiveAt(was.owner, o) && j < was.owner[o].order
    requires mid == Paint(Paint(was.owner, o, Pow2(was.owner[o].order), Loose), o, Pow2(j), Live(o, j))
    requires |bits'| == |bits|
    requires forall m: nat | m < 8 * |bits| ::
               Bit(bits', m) == (m != o + Pow2(was.owner[o].order) - 1 && (m == o + Pow2(j) - 1 || Bit(bits, m)))
    ensures Consistent(mem, heads, bits', mid, was.lists)
    ensures FreePages(mid) == FreePages(was.owner)
  {
    var owner, k := was.owner, was.owner[o].order;
    assert BlockAt(owner, o);
    AlignedWeaken(o, j, k);
    Pow2Monotone(j, k);
    hide Pow2, Aligned, Bit, Total, FreePages, ListsOk;
    var loose := Paint(owner, o, Pow2(k), Loose);
    TiledAfterLoosen(owner, o);
    ShrinkBits(bits, bits', owner, mid, o, j);
    TiledAfterBlock(loose, o, j, Live(o, j));
    CountPaint(owner, o, Pow2(k), Loose, false);
    CountPaint(loose, o, Pow2(j), Live(o, j), false);
    hide Tiled, BitsOk;
    ListsIgnoreOthers(mem, heads, owner, mid, was.lists);
  }

  lemma ShrinkBits(bits: seq<bv8>, bits': seq<bv8>, owner: seq<Owner>, mid: seq<Owner>, o: nat, j: nat)
    requires Tiled(owner) && BitsOk(bits, owner) && LiveAt(owner, o) && j < owner[o].order
    requires o + Pow2(j) <= o + Pow2(owner[o].order) <= |owner|
    requires mid == Paint(Paint(owner, o, Pow2(owner[o].order), Loose), o, Pow2(j), Live(o, j))
    requires |bits'| == |bits|
    requires forall m: nat | m < 8 * |bits| ::
               Bit(bits', m) == (m != o + Pow2(owner[o].order) - 1 && (m == o + Pow2(j) - 1 || Bit(bits, m)))
    requires Pow2(j) < Pow2(owner[o].order)
    ensures BitsOk(bits', mid)
  {
    hide Pow2, Aligned, Bit;
    assert BlockAt(owner, o);
    forall p: nat | p < |owner|
      ensures Bit(bits', p) == Marked(mid, p)
    {
      assert Bit(bits, p) == Marked(owner, p);
      assert BlockAt(owner, p);
    }
  }

  lemma ShrunkWhole(was: seq<Owner>, mid: seq<Owner>, now: seq<Owner>, o: nat, j: nat)
    requires Tiled(was) && LiveAt(was, o) && j < was[o].order && NoneLoose(was) && |now| == |was|
    requires mid == Paint(Paint(was, o, Pow2(was[o].order), Loose), o, Pow2(j), Live(o, j))
    requires o + Pow2(j) <= o + Pow2(was[o].order) <= |was|
    requires CanonicalIn(now, o + Pow2(j), o + Pow2(was[o].order))
    requires forall p | 0 <= p < |now| && !(o + Pow2(j) <= p < o + Pow2(was[o].order)) :: now[p] == mid[p]
    ensures ShrunkTo(was, now, o, j) && NoneLoose(now)
  {
    hide Aligned, Pow2;
    var k := was[o].order;
    assert BlockAt(was, o);
    forall p: nat | p < |now|
      ensures now[p] != Loose
    {
      if o + Pow2(j) <= p < o + Pow2(k) {
        assert MaximalAt(now, o + Pow2(j), o + Pow2(k), p);
      }
    }
  }

  /** Writes that stay off free pages disturb nothing. */
  lemma ClientWritesConsistent(mem: seq<Word>, mem': seq<Word>, heads: seq<Word>, bits: seq<bv8>, l: Layout)
    requires Consistent(mem, heads, bits, l.owner, l.lists) && |mem'| == |mem|
    requires forall w: nat | w < |mem| && w / PAGE_WORDS < |l.owner| && l.owner[w / PAGE_WORDS].Free? :: mem'[w] == mem[w]
    ensures Consistent(mem', heads, bits, l.owner, l.lists)
  {
    hide BitsOk, Total, FreePages, Bit;
    forall k: nat | k < NUM_SIZES
      ensures OrderOk(mem', heads[k], l.owner, l.lists[k], k)
    {
      assert OrderOk(mem, heads[k], l.owner, l.lists[k], k);
      forall i: nat | i < |l.lists[k]|
        ensures NodeAt(mem', l.lists[k], k, i)
      {
        assert NodeAt(mem, l.lists[k], k, i);
        ClientWritesNode(mem, mem', l.owner, l.lists[k][i], k, At(l.lists[k], i - 1), At(l.lists[k], i + 1));
      }
    }
  }

  lemma ClientWritesNode(mem: seq<Word>, mem': seq<Word>, owner: seq<Owner>, n: nat, k: nat, prev: Word, next: Word)
    requires Tiled(owner) && n < |owner| && owner[n] == Free(n, k) && NodeOk(mem, n, k, prev, next) && |mem'| == |mem|
    requires forall w: nat | w < |mem| && w / PAGE_WORDS < |owner| && owner[w / PAGE_WORDS].Free? :: mem'[w] == mem[w]
    ensures NodeOk(mem', n, k, prev, next)
  {
    hide Pow2, Aligned;
    assert BlockAt(owner, n);
    assert (PAGE_WORDS * n) / PAGE_WORDS == n && (PAGE_WORDS * n + 1) / PAGE_WORDS == n && (PAGE_WORDS * n + 2) / PAGE_WORDS == n;
    assert (PAGE_WORDS * (n + Pow2(k)) - 1) / PAGE_WORDS == n + Pow2(k) - 1;
    assert owner[n + Pow2(k) - 1] == owner[n];
  }

  /** A block was allocated at `n` and then the live block at `o` was given back. */
  ghost predicate MovedTo(was: seq<Owner>, now: seq<Owner>, o: nat, n: nat, b: nat) {
    exists mid: seq<Owner> :: Tiled(mid) && Allocated(was, mid, n, b) && FreedTo(mid, now, o)
  }

  /** The new block begins with the contents of the old one; every other page that is still in use, or
      not released, is untouched. */
  ghost predicate Moved(mem: seq<Word>, mem': seq<Word>, now: seq<Owner>, o: nat, k: nat, n: nat, b: nat) {
    && |mem'| == |mem| && PAGE_WORDS * (o + Pow2(k)) <= |mem| && PAGE_WORDS * (n + Pow2(k)) <= |mem|
    && mem'[PAGE_WORDS * n..PAGE_WORDS * (n + Pow2(k))] == mem[PAGE_WORDS * o..PAGE_WORDS * (o + Pow2(k))]
    && forall w: nat | w < |mem| && !(PAGE_WORDS * n <= w < PAGE_WORDS * (n + Pow2(b))) &&
                       (w / PAGE_WORDS < |now| ==> !Ours(now[w / PAGE_WORDS])) :: mem'[w] == mem[w]
  }

  /** An allocation takes only free pages, and of those only the block itself stops being free. */
  lemma AllocatedFrame(was: seq<Owner>, now: seq<Owner>, n: nat, b: nat)
    requires Tiled(was) && Allocated(was, now, n, b)
    ensures |now| == |was| && n + Pow2(b) <= |now| && AllAre(now, n, Pow2(b), Live(n, b))
    ensures forall p | n <= p < n + Pow2(b) :: was[p].Free?
    ensures forall p | 0 <= p < |was| && !(n <= p < n + Pow2(b)) ::
              now[p].Free? == was[p].Free? && (!was[p].Free? ==> now[p] == was[p])
  {
    hide Pow2, Aligned;
    forall p | n + Pow2(b) <= p < n + Pow2(was[n].order)
      ensures now[p].Free?
    {
      assert MaximalAt(now, n + Pow2(b), n + Pow2(was[n].order), p);
    }
  }

  /** Giving a block back frees exactly its pages; every other live block and unreleased page stays. */
  lemma FreedFrame(was: seq<Owner>, now: seq<Owner>, o: nat)
    requires Tiled(was) && FreedTo(was, now, o)
    ensures |now| == |was| && LiveAt(was, o) && o + Pow2(was[o].order) <= |was|
    ensures forall p | o <= p < o + Pow2(was[o].order) :: now[p].Free?
    ensures forall p | 0 <= p < |was| && !(o <= p < o + Pow2(was[o].order)) ::
              now[p].Free? == was[p].Free? && (!was[p].Free? ==> now[p] == was[p])
  {
    hide Pow2, Aligned, FlipBit;
    var m: nat, k: nat :| FreedInto(was, now, o, m, k);
  }

  /** `words` words from `from` on were copied to `to`. */
  ghost predicate Copied(mem: seq<Word>, mem': seq<Word>, to: nat, from: nat, words: nat) {
    && |mem'| == |mem| && from + words <= |mem|
    && forall i: nat {:trigger mem'[i]} | i < |mem| ::
         mem'[i] == if to <= i < to + words then mem[i - to + from] else mem[i]
  }

  lemma LiveBlocksApart(owner: seq<Owner>, o: nat, k: nat, n: nat, b: nat)
    requires Tiled(owner) && LiveAt(owner, o) && owner[o].order == k && n != o
    requires AllAre(owner, n, Pow2(b), Live(n, b))
    ensures n + Pow2(b) <= o || o + Pow2(k) <= n
  {
    hide Pow2, Aligned;
    assert BlockAt(owner, o) && owner[n] == Live(n, b);
  }

  /** The copy and the free together: live pages `n` to `n + 2^b` receive the data of the block at `o`. */
  lemma CopyThenFree(mem1: seq<Word>, mem2: seq<Word>, mem3: seq<Word>, mid: seq<Owner>, now: seq<Owner>,
                     o: nat, k: nat, n: nat, b: nat)
    requires Tiled(mid) && FreedTo(mid, now, o) && mid[o].order == k && Pow2(k) <= Pow2(b)
    requires AllAre(mid, n, Pow2(b), Live(n, b)) && n != o && PAGE_WORDS * |mid| <= |mem1|
    requires SameElsewhere(mem2, mem3, now) && |mem2| == |mem1|
    requires Copied(mem1, mem2, PAGE_WORDS * n, PAGE_WORDS * o, PAGE_WORDS * Pow2(k))
    ensures Moved(mem1, mem3, now, o, k, n, b)
  {
    FreedFrame(mid, now, o);
    LiveBlocksApart(mid, o, k, n, b);
    hide Pow2, Aligned, FreedTo, Tiled;
    forall p | n <= p < n + Pow2(b)
      ensures now[p] == Live(n, b)
    {
      assert mid[p] == Live(n, b);
    }
    forall w: nat | PAGE_WORDS * n <= w < PAGE_WORDS * (n + Pow2(k))
      ensures mem3[w] == mem1[w - PAGE_WORDS * n + PAGE_WORDS * o]
    {
      assert n <= w / PAGE_WORDS < n + Pow2(b);
      assert now[w / PAGE_WORDS] == Live(n, b);
    }
    var to, from := mem3[PAGE_WORDS * n..PAGE_WORDS * (n + Pow2(k))], mem1[PAGE_WORDS * o..PAGE_WORDS * (o + Pow2(k))];
    forall i | 0 <= i < |to|
      ensures to[i] == from[i]
    {
      assert to[i] == mem3[PAGE_WORDS * n + i] && from[i] == mem1[PAGE_WORDS * n + i - PAGE_WORDS * n + PAGE_WORDS * o];
    }
    assert to == from;
    forall w: nat | w < |mem1| && !(PAGE_WORDS * n <= w < PAGE_WORDS * (n + Pow2(b))) &&
                    (w / PAGE_WORDS < |now| ==> !Ours(now[w / PAGE_WORDS]))
      ensures mem3[w] == mem1[w]
    {
      assert !(PAGE_WORDS * n <= w < PAGE_WORDS * n + PAGE_WORDS * Pow2(k));
      assert mem2[w] == mem1[w];
    }
  }

  lemma AllocateThenMove(mem: seq<Word>, mem1: seq<Word>, mem3: seq<Word>,
                         was: seq<Owner>, mid: seq<Owner>, now: seq<Owner>, o: nat, k: nat, n: nat, b: nat)
    requires Tiled(was) && Tiled(mid) && NoneLoose(was) && LiveAt(was, o) && was[o].order == k
    requires Allocated(was, mid, n, b) && FreedTo(mid, now, o)
    requires SameElsewhere(mem, mem1, was) && Moved(mem1, mem3, now, o, k, n, b)
    ensures Moved(mem, mem3, now, o, k, n, b) && MovedTo(was, now, o, n, b)
  {
    AllocatedFrame(was, mid, n, b);
    FreedFrame(mid, now, o);
    assert BlockAt(was, o);
    hide Pow2, Aligned, Allocated, FreedTo, Tiled;
    forall w: nat | PAGE_WORDS * o <= w < PAGE_WORDS * (o + Pow2(k))
      ensures mem1[w] == mem[w]
    {
      assert was[w / PAGE_WORDS] == was[o];
    }
    assert mem1[PAGE_WORDS * o..PAGE_WORDS * (o + Pow2(k))] == mem[PAGE_WORDS * o..PAGE_WORDS * (o + Pow2(k))];
    forall w: nat | w < |mem| && !(PAGE_WORDS * n <= w < PAGE_WORDS * (n + Pow2(b))) &&
                    (w / PAGE_WORDS < |now| ==> !Ours(now[w / PAGE_WORDS]))
      ensures mem3[w] == mem[w]
    {
      var p := w / PAGE_WORDS;
      assert !(n <= p < n + Pow2(b));
      assert p < |now| ==> !was[p].Free? && was[p] != Loose;
    }
    assert MovedTo(was, now, o, n, b);
  }

  lemma GrowFacts(was: seq<Owner>, mid: seq<Owner>, n: nat, b: nat, o: nat, k: nat, size: nat)
    requires Tiled(was) && Allocated(was, mid, n, b) && LiveAt(was, o) && was[o].order == k
    requires b == OrderFor(size) && PAGE_BYTES * Pow2(k) < size
    ensures LiveAt(mid, o) && mid[o].order == k && n != o && Pow2(k) <= Pow2(b)
    ensures AllAre(mid, n, Pow2(b), Live(n, b))
  {
    AllocatedFrame(was, mid, n, b);
    OrderForFits(size, k);
    Pow2Monotone(k, b);
  }

  // ----- Init and Check -----

  lemma {:induction false} CountUnreleased(owner: seq<Owner>, n: nat)
    requires n <= |owner| && forall p | 0 <= p < |owner| :: owner[p] == Unreleased
    ensures CountFree(owner, n) == 0
  {
    if n > 0 {
      CountUnreleased(owner, n - 1);
    }
  }

  lemma {:induction false} TotalEmpty(lists: seq<seq<Word>>, n: nat)
    requires n <= |lists| && forall k | 0 <= k < |lists| :: lists[k] == []
    ensures Total(lists, n) == 0
  {
    if n > 0 {
      TotalEmpty(lists, n - 1);
    }
  }

  lemma InitConsistent(mem: seq<Word>, heads: seq<Word>, bits: seq<bv8>, l: Layout)
    requires Shape(mem, heads, l.owner, l.lists) && |l.owner| <= 8 * |bits|
    requires forall i | 0 <= i < |bits| :: bits[i] == 0xFF
    requires forall k | 0 <= k < NUM_SIZES :: heads[k] == OURNULL && l.lists[k] == []
    requires forall p | 0 <= p < |l.owner| :: l.owner[p] == Unreleased
    ensures Consistent(mem, heads, bits, l.owner, l.lists) && FreePages(l.owner) == 0
    ensures NoneLoose(l.owner) && Coalesced(l.owner)
  {
    CountUnreleased(l.owner, |l.owner|);
    TotalEmpty(l.lists, NUM_SIZES);
    OnesAreBits(bits, 0, |bits|);
    hide Bit, Pow2, Aligned, FlipBit;
    forall p: nat | p < |l.owner|
      ensures BlockAt(l.owner, p) && NoFreeBuddy(l.owner, p)
    {
    }
    forall k: nat | k < NUM_SIZES
      ensures OrderOk(mem, heads[k], l.owner, l.lists[k], k)
    {
      forall s: nat | s < |l.owner|
        ensures Listed(l.owner, l.lists[k], k, s)
      {
      }
    }
  }

  /** No list is longer than `poolBlocks >> size`, so the bound that catches cycles never cuts it short. */
  lemma CheckFacts(mem: seq<Word>, heads: seq<Word>, bits: seq<bv8>, l: Layout, size: nat)
    requires Consistent(mem, heads, bits, l.owner, l.lists) && size < NUM_SIZES
    ensures heads[size] == At(l.lists[size], 0)
    ensures |l.lists[size]| <= |l.owner| / Pow2(size)
  {
    hide Tiled, BitsOk, Total, FreePages;
    assert OrderOk(mem, heads[size], l.owner, l.lists[size], size);
    TotalCoversList(l.lists, NUM_SIZES, size);
    DivAtLeast(|l.lists[size]|, Pow2(size), |l.owner|);
  }

  lemma DivAtLeast(q: nat, m: nat, x: nat)
    requires m > 0 && q * m <= x
    ensures q <= x / m
  {
    var d := x / m;
    assert x < (d + 1) * m;
    if q > d {
      TimesMonotone(d + 1, q, m);
    }
  }

  lemma NoNullListed(mem: seq<Word>, heads: seq<Word>, bits: seq<bv8>, l: Layout, size: nat)
    requires Consistent(mem, heads, bits, l.owner, l.lists) && size < NUM_SIZES
    ensures forall i | 0 <= i < |l.lists[size]| :: l.lists[size][i] != OURNULL
  {
    hide Tiled, BitsOk, Total, FreePages;
    assert OrderOk(mem, heads[size], l.owner, l.lists[size], size);
  }

  lemma CheckNode(mem: seq<Word>, heads: seq<Word>, bits: seq<bv8>, l: Layout, size: nat, i: nat)
    requires Consistent(mem, heads, bits, l.owner, l.lists) && size < NUM_SIZES && i < |l.lists[size]|
    ensures NodeOk(mem, l.lists[size][i], size, At(l.lists[size], i - 1), At(l.lists[size], i + 1))
    ensures l.lists[size][i] + Pow2(size) <= |l.owner|
    ensures l.lists[size][i] != OURNULL
    ensures forall p: nat | l.lists[size][i] <= p < l.lists[size][i] + Pow2(size) :: !Bit(bits, p)
  {
    hide Total, FreePages, Pow2, Bit, Aligned;
    var o := l.lists[size][i];
    assert OrderOk(mem, heads[size], l.owner, l.lists[size], size);
    assert NodeAt(mem, l.lists[size], size, i);
    assert BlockAt(l.owner, o);
    forall p: nat | o <= p < o + Pow2(size)
      ensures !Bit(bits, p)
    {
      assert Bit(bits, p) == Marked(l.owner, p);
      assert l.owner[p] == l.owner[o];
    }
  }
}
