/** When free blocks are as large as they can be, and why that makes a failed allocation final. */
module Coalescing {
  import opened Words
  import opened PowersOfTwo
  import opened ByteMap
  import opened BuddyModel

  /** If a free block below the top order starts at `s`, its buddy is not a free block of that order. */
  ghost predicate NoFreeBuddy(owner: seq<Owner>, s: nat)
    requires s < |owner|
  {
    owner[s].Free? && owner[s].start == s && owner[s].order + 1 < NUM_SIZES ==>
      var b, k := FlipBit(s, owner[s].order), owner[s].order;
      !(b < |owner| && owner[b] == Free(b, k))
  }

  ghost predicate Coalesced(owner: seq<Owner>) {
    forall s: nat | s < |owner| :: NoFreeBuddy(owner, s)
  }

  /** The 2^b pages from `s` on are all free, in whatever blocks. */
  ghost predicate FreeRun(owner: seq<Owner>, s: nat, b: nat) {
    Aligned(s, b) && s + Pow2(b) <= |owner| && forall p | s <= p < s + Pow2(b) :: owner[p].Free?
  }

  /** A block of order `b` can be placed: somewhere 2^b pages, aligned to their size, are all free. */
  ghost predicate Placeable(owner: seq<Owner>, b: nat) {
    exists s: nat :: FreeRun(owner, s, b)
  }

  /** Two blocks of order `k` that fill the two halves of an aligned run would have been merged. */
  lemma HalvesMerged(owner: seq<Owner>, s: nat, k: nat)
    requires Coalesced(owner) && k + 1 < NUM_SIZES && Aligned(s, k + 1) && s + Pow2(k) < |owner|
    ensures !(owner[s] == Free(s, k) && owner[s + Pow2(k)] == Free(s + Pow2(k), k))
  {
    AlignedWeaken(s, k, k + 1);
    FlipBitIsBuddy(s, k);
    assert NoFreeBuddy(owner, s);
  }

  lemma StartsThere(owner: seq<Owner>, s: nat)
    requires s < |owner| && owner[s].Free? && BlockAt(owner, s) && Aligned(s, owner[s].order)
    ensures owner[s].start == s
  {
    hide Aligned;
    AlignDownUnique(owner[s].start, owner[s].order, s);
    AlignDownUnique(s, owner[s].order, s);
  }

  /** An aligned run of free pages lies inside a single free block. */
  lemma {:induction false} RunInsideBlock(owner: seq<Owner>, s: nat, b: nat)
    requires Tiled(owner) && Coalesced(owner) && b < NUM_SIZES && FreeRun(owner, s, b)
    ensures owner[s].order >= b
    ensures forall p | s <= p < s + Pow2(b) :: owner[p] == owner[s]
    decreases b
  {
    if b == 0 {
      assert BlockAt(owner, s);
    } else {
      hide Aligned;
      var m := s + Pow2(b - 1);
      AlignedWeaken(s, b - 1, b);
      AlignedStep(s, b - 1);
      RunInsideBlock(owner, s, b - 1);
      RunInsideBlock(owner, m, b - 1);
      assert BlockAt(owner, s) && BlockAt(owner, m);
      if owner[s].order == b - 1 && owner[m].order == b - 1 {
        StartsThere(owner, s);
        StartsThere(owner, m);
        HalvesMerged(owner, s, b - 1);
      } else if owner[s].order >= b {
        Nested(s, b, owner[s].start, owner[s].order, s);
      } else {
        Nested(s, b, owner[m].start, owner[m].order, m);
      }
    }
  }

  /** The guarantee the header promises: if no list of order `b` or more has a block, then no
      aligned run of 2^b pages is free. The converse holds without coalescing. */
  lemma FailureIsFinal(mem: seq<Word>, heads: seq<Word>, owner: seq<Owner>, lists: seq<seq<Word>>, b: nat)
    requires Tiled(owner) && ListsOk(mem, heads, owner, lists) && Coalesced(owner) && b < NUM_SIZES
    ensures (forall k: nat | b <= k < NUM_SIZES :: lists[k] == []) <==> !Placeable(owner, b)
  {
    if Placeable(owner, b) {
      var s: nat :| FreeRun(owner, s, b);
      RunInsideBlock(owner, s, b);
      assert BlockAt(owner, s);
      var t, k := owner[s].start, owner[s].order;
      assert owner[t] == Free(t, k);
      assert OrderOk(mem, heads[k], owner, lists[k], k);
      assert Listed(owner, lists[k], k, t);
    }
    forall k: nat | b <= k < NUM_SIZES && lists[k] != []
      ensures Placeable(owner, b)
    {
      assert OrderOk(mem, heads[k], owner, lists[k], k);
      var t := lists[k][0];
      assert BlockAt(owner, t);
      AlignedWeaken(t, b, k);
      Pow2Monotone(b, k);
      assert FreeRun(owner, t, b);
    }
  }

  /** Which pages are free decides how they are cut into blocks: the cut does not depend on history. */
  lemma CanonicalBlocks(owner: seq<Owner>, owner': seq<Owner>, p: nat)
    requires Tiled(owner) && Coalesced(owner) && Tiled(owner') && Coalesced(owner')
    requires |owner| == |owner'| && forall q | 0 <= q < |owner| :: owner[q].Free? == owner'[q].Free?
    requires p < |owner| && owner[p].Free?
    ensures owner[p] == owner'[p]
  {
    assert BlockAt(owner, p) && BlockAt(owner', p);
    BlockAtLeast(owner, owner', p);
    BlockAtLeast(owner', owner, p);
    AlignDownUnique(owner[p].start, owner[p].order, p);
    AlignDownUnique(owner'[p].start, owner[p].order, p);
  }

  lemma BlockAtLeast(owner: seq<Owner>, owner': seq<Owner>, p: nat)
    requires Tiled(owner) && Coalesced(owner) && Tiled(owner')
    requires |owner| == |owner'| && forall q | 0 <= q < |owner| :: owner[q].Free? == owner'[q].Free?
    requires p < |owner| && owner[p].Free?
    ensures owner[p].order >= owner'[p].order
  {
    assert BlockAt(owner', p);
    var t, k := owner'[p].start, owner'[p].order;
    forall q | t <= q < t + Pow2(k)
      ensures owner[q].Free?
    {
      assert owner'[q] == owner'[p];
    }
    assert FreeRun(owner, t, k);
    RunInsideBlock(owner, t, k);
  }

  // ----- what keeps free blocks coalesced -----

  lemma LoosenKeepsCoalesced(owner: seq<Owner>, from: nat, n: nat, o: Owner)
    requires Coalesced(owner) && !o.Free?
    ensures Coalesced(Paint(owner, from, n, o))
  {
    forall s: nat | s < |owner|
      ensures NoFreeBuddy(Paint(owner, from, n, o), s)
    {
      assert NoFreeBuddy(owner, s);
    }
  }

  // ----- the canonical cut of a range -----

  /** The block of twice the size around block (s, k). */
  function Parent(s: nat, k: nat): nat {
    if Aligned(s, k + 1) then s else FlipBit(s, k)
  }

  /** Page `p` is in a free block inside [first, past) that could not be doubled there. */
  ghost predicate MaximalAt(owner: seq<Owner>, first: nat, past: nat, p: nat)
    requires p < |owner|
  {
    && owner[p].Free?
    && var s, k := owner[p].start, owner[p].order;
       && first <= s && s + Pow2(k) <= past
       && (k + 1 < NUM_SIZES ==> !(first <= Parent(s, k) && Parent(s, k) + Pow2(k + 1) <= past))
  }

  ghost predicate CanonicalIn(owner: seq<Owner>, first: nat, past: nat) {
    past <= |owner| && forall p: nat | first <= p < past :: MaximalAt(owner, first, past, p)
  }

  lemma ParentHolds(s: nat, k: nat)
    requires Aligned(s, k)
    ensures Aligned(Parent(s, k), k + 1) && Parent(s, k) <= s && s + Pow2(k) <= Parent(s, k) + Pow2(k + 1)
    ensures Parent(FlipBit(s, k), k) == Parent(s, k)
  {
    FlipBitIsBuddy(s, k);
  }

  /** There is only one canonical cut of a range. */
  lemma CanonicalUnique(owner: seq<Owner>, owner': seq<Owner>, first: nat, past: nat, p: nat)
    requires Tiled(owner) && Tiled(owner') && |owner| == |owner'|
    requires CanonicalIn(owner, first, past) && CanonicalIn(owner', first, past) && first <= p < past
    ensures owner[p] == owner'[p]
  {
    assert MaximalAt(owner, first, past, p) && MaximalAt(owner', first, past, p);
    assert BlockAt(owner, p) && BlockAt(owner', p);
    MaximalOrder(owner, first, past, p, owner'[p].start, owner'[p].order);
    MaximalOrder(owner', first, past, p, owner[p].start, owner[p].order);
    AlignDownUnique(owner[p].start, owner[p].order, p);
    AlignDownUnique(owner'[p].start, owner[p].order, p);
  }

  lemma MaximalOrder(owner: seq<Owner>, first: nat, past: nat, p: nat, t: nat, j: nat)
    requires p < |owner| && BlockAt(owner, p) && MaximalAt(owner, first, past, p)
    requires Aligned(t, j) && j < NUM_SIZES && first <= t <= p < t + Pow2(j) <= past
    ensures j <= owner[p].order
  {
    var s, k := owner[p].start, owner[p].order;
    if j > k {
      ParentHolds(s, k);
      Nested(Parent(s, k), k + 1, t, j, p);
    }
  }

  // ----- cutting a range from left to right -----

  predicate FitsAt(i: nat, past: nat, k: nat) {
    Aligned(i, k) && i + Pow2(k) <= past
  }

  /** `k` is the largest order whose block fits at `i`. */
  predicate Greedy(i: nat, past: nat, k: nat) {
    k < NUM_SIZES && FitsAt(i, past, k) && (k + 1 < NUM_SIZES ==> !FitsAt(i, past, k + 1))
  }

  lemma FitsSmaller(i: nat, past: nat, j: nat, k: nat)
    requires j <= k && FitsAt(i, past, k)
    ensures FitsAt(i, past, j)
  {
    AlignedWeaken(i, j, k);
    Pow2Monotone(j, k);
  }

  /** No aligned block of the range begins before `i` and ends after it. */
  ghost predicate NoStraddle(first: nat, past: nat, i: nat) {
    forall s: nat, k: nat | first <= s < i && k < NUM_SIZES && FitsAt(s, past, k) :: s + Pow2(k) <= i
  }

  lemma GreedyStep(first: nat, past: nat, i: nat, k: nat)
    requires first <= i && NoStraddle(first, past, i) && Greedy(i, past, k)
    ensures NoStraddle(first, past, i + Pow2(k))
  {
    hide Pow2, Aligned;
    forall s: nat, j: nat | first <= s < i + Pow2(k) && j < NUM_SIZES && FitsAt(s, past, j)
      ensures s + Pow2(j) <= i + Pow2(k)
    {
      if s == i {
        if j > k {
          FitsSmaller(i, past, k + 1, j);
        } else {
          Pow2Monotone(j, k);
        }
      } else if s > i {
        if j > k {
          Nested(i, k, s, j, s);
        } else {
          Nested(s, j, i, k, s);
        }
      }
    }
  }

  lemma GreedyIsMaximal(first: nat, past: nat, i: nat, k: nat)
    requires first <= i && NoStraddle(first, past, i) && Greedy(i, past, k) && k + 1 < NUM_SIZES
    ensures !(first <= Parent(i, k) && Parent(i, k) + Pow2(k + 1) <= past)
  {
    ParentHolds(i, k);
    hide Pow2, Aligned, FlipBit, Parent;
    var s := Parent(i, k);
    if first <= s && s + Pow2(k + 1) <= past {
      assert FitsAt(s, past, k + 1);
    }
  }

  /** The part of [first, past) before `i` is cut canonically, the rest is still loose. */
  ghost predicate CutTo(was: seq<Owner>, owner: seq<Owner>, first: nat, past: nat, i: nat) {
    && |owner| == |was| && first <= i && past <= |owner|
    && (forall p: nat | first <= p < i && p < past :: MaximalAt(owner, first, past, p))
    && (forall p | i <= p < past :: owner[p] == Loose)
    && (forall p | 0 <= p < |owner| && !(first <= p < past) :: owner[p] == was[p])
  }

  lemma CutStep(was: seq<Owner>, owner: seq<Owner>, first: nat, past: nat, i: nat, k: nat)
    requires CutTo(was, owner, first, past, i) && NoStraddle(first, past, i) && Greedy(i, past, k)
    ensures CutTo(was, Paint(owner, i, Pow2(k), Free(i, k)), first, past, i + Pow2(k))
    ensures NoStraddle(first, past, i + Pow2(k))
  {
    GreedyStep(first, past, i, k);
    if k + 1 < NUM_SIZES {
      GreedyIsMaximal(first, past, i, k);
    }
    hide Pow2, Aligned, FlipBit, Parent, NoStraddle;
    var owner' := Paint(owner, i, Pow2(k), Free(i, k));
    forall p: nat | first <= p < i + Pow2(k) && p < past
      ensures MaximalAt(owner', first, past, p)
    {
      if p < i {
        assert MaximalAt(owner, first, past, p);
      }
    }
  }

  lemma CutStart(owner: seq<Owner>, first: nat, past: nat)
    requires past <= |owner| && forall p | first <= p < past :: owner[p] == Loose
    ensures CutTo(owner, owner, first, past, first) && NoStraddle(first, past, first) && Aligned(first, 0)
  {
  }

  lemma CutNext(was: seq<Owner>, owner: seq<Owner>, first: nat, past: nat, i: nat, k: nat)
    requires CutTo(was, owner, first, past, i) && NoStraddle(first, past, i) && Greedy(i, past, k) && past <= |owner|
    ensures Aligned(i, k) && AllAre(owner, i, Pow2(k), Loose) && i + Pow2(k) <= past
    ensures CutTo(was, Paint(owner, i, Pow2(k), Free(i, k)), first, past, i + Pow2(k))
    ensures NoStraddle(first, past, i + Pow2(k))
    ensures Aligned(i + Pow2(k), k)
    ensures forall p | 0 <= p < |owner| && owner[p].Free? :: Paint(owner, i, Pow2(k), Free(i, k))[p].Free?
  {
    CutStep(was, owner, first, past, i, k);
    AlignedStep(i, k);
  }

  lemma CutDone(was: seq<Owner>, owner: seq<Owner>, first: nat, past: nat, i: nat)
    requires CutTo(was, owner, first, past, i) && i >= past
    ensures CanonicalIn(owner, first, past)
    ensures forall p | 0 <= p < |owner| && !(first <= p < past) :: owner[p] == was[p]
  {
  }

  /** Once an order had to be lowered, less than that order is left, so orders never rise again. */
  lemma RiseThenFall(i: nat, past: nat, last: nat, k: nat, falling: bool)
    requires i < past && last < NUM_SIZES && Aligned(i, last) && Greedy(i, past, k)
    requires falling ==> past - i < Pow2(last)
    ensures falling ==> k < last
    ensures falling || k < last ==> past - (i + Pow2(k)) < Pow2(k)
  {
    if k >= last {
      FitsSmaller(i, past, last, k);
    } else {
      AlignedWeaken(i, k + 1, last);
    }
  }

  /** The two inner loops of `toFree`: from the order used last, up while larger blocks fit, then
      down until one fits. Whatever the start, this finds the largest order that fits; a single page
      always fits, so the source's exit on a negative order is never taken. */
  method PickOrder(i: nat, past: nat, last: nat) returns (tryBits: nat, tryLen: nat, ghost ups: nat, ghost downs: nat)
    requires i < past && last < NUM_SIZES
    ensures Greedy(i, past, tryBits) && tryLen == Pow2(tryBits)
    ensures ups == (if last < tryBits then tryBits - last else 0)
    ensures downs == (if tryBits < last then last - tryBits else 0)
  {
    tryBits, tryLen, ups, downs := last, Pow2(last), 0, 0;
    while tryBits < NUM_SIZES - 1
      invariant last <= tryBits < NUM_SIZES && tryLen == Pow2(tryBits) && ups == tryBits - last
      invariant tryBits == last || FitsAt(i, past, tryBits)
    {
      var nextLen := 2 * tryLen;
      AlignedIsMod(i, tryBits + 1);
      if i + nextLen > past {
        break;
      }
      if i % nextLen != 0 {
        break;
      }
      tryLen := nextLen;
      tryBits := tryBits + 1;
      ups := ups + 1;
    }
    assert tryBits + 1 < NUM_SIZES ==> !FitsAt(i, past, tryBits + 1);
    ghost var top := tryBits;
    while true
      invariant tryBits <= top && tryLen == Pow2(tryBits) && downs == top - tryBits
      invariant tryBits + 1 < NUM_SIZES ==> !FitsAt(i, past, tryBits + 1)
      invariant top == last || (FitsAt(i, past, top) && tryBits == top)
      decreases tryBits
    {
      AlignedIsMod(i, tryBits);
      if i + tryLen <= past && i % tryLen == 0 {
        break;
      }
      tryBits := tryBits - 1;
      tryLen := tryLen / 2;
      downs := downs + 1;
    }
  }

  /** No free block inside the range has a free buddy of its order outside it. */
  ghost predicate NoCross(owner: seq<Owner>, first: nat, past: nat)
    requires past <= |owner|
  {
    forall s: nat | first <= s < past && owner[s].Free? && owner[s].start == s && owner[s].order + 1 < NUM_SIZES ::
      var b := FlipBit(s, owner[s].order);
      !(first <= b < past) ==> !(b < |owner| && owner[b] == Free(b, owner[s].order))
  }

  lemma FillKeepsCoalesced(owner: seq<Owner>, owner': seq<Owner>, first: nat, past: nat)
    requires |owner'| == |owner| && Tiled(owner') && Coalesced(owner) && CanonicalIn(owner', first, past)
    requires forall p | 0 <= p < |owner| && !(first <= p < past) :: owner'[p] == owner[p]
    requires NoCross(owner', first, past)
    ensures Coalesced(owner')
  {
    forall s: nat | s < |owner'|
      ensures NoFreeBuddy(owner', s)
    {
      assert NoFreeBuddy(owner, s) && BlockAt(owner', s);
      if owner'[s].Free? && owner'[s].start == s && owner'[s].order + 1 < NUM_SIZES {
        var k := owner'[s].order;
        var b := FlipBit(s, k);
        FlipBitIsBuddy(s, k);
        ParentHolds(s, k);
        if b < |owner'| && owner'[b] == Free(b, k) {
          if first <= s < past && first <= b < past {
            assert MaximalAt(owner', first, past, s) && MaximalAt(owner', first, past, b);
          }
        }
      }
    }
  }

  /** The remainder of a split block meets no free buddy: the rest of the block is not free. */
  lemma SplitDoesNotCross(owner: seq<Owner>, s: nat, r: nat, first: nat)
    requires Tiled(owner) && r < NUM_SIZES && Aligned(s, r) && s < first <= s + Pow2(r) <= |owner|
    requires CanonicalIn(owner, first, s + Pow2(r)) && forall p | s <= p < first :: !owner[p].Free?
    ensures NoCross(owner, first, s + Pow2(r))
  {
    hide Pow2, Aligned, FlipBit;
    var past := s + Pow2(r);
    forall t: nat | first <= t < past && owner[t].Free? && owner[t].start == t && owner[t].order + 1 < NUM_SIZES
      ensures var b := FlipBit(t, owner[t].order);
              !(first <= b < past) ==> !(b < |owner| && owner[b] == Free(b, owner[t].order))
    {
      var k := owner[t].order;
      assert BlockAt(owner, t) && MaximalAt(owner, first, past, t);
      FlipBitIsBuddy(t, k);
      ParentHolds(t, k);
      if k >= r {
        Pow2Monotone(r, k);
      } else {
        Nested(Parent(t, k), k + 1, s, r, t);
      }
    }
  }

  // ----- the trailer that Free trusts -----

  /** A block on a page of the buddy does not reach beyond the buddy: it would hold page `o` as well. */
  lemma BlockInBuddy(owner: seq<Owner>, o: nat, k: nat, p: nat)
    requires Tiled(owner) && Aligned(o, k) && o < |owner| && owner[o] == Loose
    requires p < |owner| && (owner[p].Free? || owner[p].Live?) && FlipBit(o, k) <= p < FlipBit(o, k) + Pow2(k)
    ensures owner[p].order <= k
  {
    FlipBitIsBuddy(o, k);
    ParentHolds(o, k);
    assert BlockAt(owner, p);
    hide Tiled, Pow2, Aligned, FlipBit;
    var s, j := owner[p].start, owner[p].order;
    if j > k {
      Nested(Parent(o, k), k + 1, s, j, p);
    }
  }

  lemma LastPageOfBuddy(owner: seq<Owner>, o: nat, k: nat)
    requires Tiled(owner) && Aligned(o, k) && AllAre(owner, o, Pow2(k), Loose)
    requires forall p | 0 <= p < |owner| && owner[p] == Loose :: o <= p < o + Pow2(k)
    requires FlipBit(o, k) + Pow2(k) <= |owner| && !Marked(owner, FlipBit(o, k) + Pow2(k) - 1)
    ensures var last := owner[FlipBit(o, k) + Pow2(k) - 1];
            && last.Free? && last.order <= k && last.start + Pow2(last.order) == FlipBit(o, k) + Pow2(k)
  {
    var b := FlipBit(o, k);
    var p := b + Pow2(k) - 1;
    FlipBitIsBuddy(o, k);
    assert BlockAt(owner, p);
    hide Tiled, Pow2, Aligned, FlipBit;
    assert owner[o] == Loose && owner[p] != Loose;
    BlockInBuddy(owner, o, k, p);
    EndsTogether(owner[p].start, owner[p].order, b, k);
  }

  lemma WholeBuddy(owner: seq<Owner>, b: nat, k: nat)
    requires Tiled(owner) && b + Pow2(k) <= |owner|
    ensures var last := owner[b + Pow2(k) - 1];
            last.Free? && last.start + Pow2(last.order) == b + Pow2(k) ==> (last.order == k <==> owner[b] == Free(b, k))
  {
    hide Pow2, Aligned;
    assert BlockAt(owner, b + Pow2(k) - 1) && BlockAt(owner, b);
  }

  /** Where a free block stands on its list, and its four words. */
  lemma FreeBlockListed(mem: seq<Word>, heads: seq<Word>, owner: seq<Owner>, lists: seq<seq<Word>>, s: nat, j: nat)
    returns (i: nat)
    requires ListsOk(mem, heads, owner, lists) && s < |owner| && owner[s] == Free(s, j) && j < NUM_SIZES
    ensures i < |lists[j]| && lists[j][i] == s && NodeAt(mem, lists[j], j, i)
  {
    assert OrderOk(mem, heads[j], owner, lists[j], j);
    assert Listed(owner, lists[j], j, s);
    i :| 0 <= i < |lists[j]| && lists[j][i] == s;
    assert NodeAt(mem, lists[j], j, i);
  }

  /** Whenever the bit of the buddy's last page is clear, that page belongs to a free block that ends
      there, so the word before the end of the buddy is that block's own trailer; it equals the order
      being merged exactly when the whole buddy is one free block. */
  lemma TrailerIsGenuine(bits: seq<bv8>, mem: seq<Word>, heads: seq<Word>, owner: seq<Owner>, lists: seq<seq<Word>>,
                         o: nat, k: nat)
    requires Tiled(owner) && BitsOk(bits, owner) && ListsOk(mem, heads, owner, lists)
    requires k + 1 < NUM_SIZES && Aligned(o, k) && AllAre(owner, o, Pow2(k), Loose)
    requires forall p | 0 <= p < |owner| && owner[p] == Loose :: o <= p < o + Pow2(k)
    requires FlipBit(o, k) + Pow2(k) <= |owner| && !Bit(bits, FlipBit(o, k) + Pow2(k) - 1)
    ensures var b := FlipBit(o, k);
            var last := owner[b + Pow2(k) - 1];
            && last.Free? && last.order <= k && last.start + Pow2(last.order) == b + Pow2(k)
            && mem[PAGE_WORDS * (b + Pow2(k)) - 1] == last.order + LEN_OFFSET
            && (last.order == k <==> owner[b] == Free(b, k))
  {
    hide Pow2, Aligned, FlipBit, Bit;
    var b := FlipBit(o, k);
    LastPageOfBuddy(owner, o, k);
    WholeBuddy(owner, b, k);
    var last := owner[b + Pow2(k) - 1];
    assert BlockAt(owner, b + Pow2(k) - 1);
    var i := FreeBlockListed(mem, heads, owner, lists, last.start, last.order);
  }

  lemma EndsTogether(s: nat, j: nat, b: nat, k: nat)
    requires j <= k && Aligned(s, j) && Aligned(b, k) && s <= b + Pow2(k) - 1 < s + Pow2(j)
    ensures s + Pow2(j) == b + Pow2(k)
  {
    AlignedStep(b, k);
    AlignedWeaken(b + Pow2(k), j, k);
    AlignedGap(s, b + Pow2(k), j);
  }
}
