/** The meaning of the buddy allocator's data: which block owns each page, how the free lists lie in
    pool memory, and what the bit map says. Everything here is a statement about values; the class in
    BuddyAllocator.dfy changes the real arrays and keeps these statements true. */
module BuddyModel {
  import opened Words
  import opened PowersOfTwo
  import opened ByteMap

  const NUM_SIZES: nat := 13
  const PAGE_BYTES: nat := 4096
  const PAGE_WORDS: nat := 1024
  const MAGIC: Word := 0xA7130423
  const OURNULL: Word := 0xFFFFFFFF
  const LEN_OFFSET: nat := 1234

  /** Who holds a page. `Loose` pages are in transit inside one call: no list, no bit, no client. */
  datatype Owner =
    | Unreleased
    | Loose
    | Free(start: nat, order: nat)
    | Live(start: nat, order: nat)

  /** If some block holds page `p`, it is a block of 2^order pages, starts at a multiple of its size and is whole. */
  ghost predicate BlockAt(owner: seq<Owner>, p: nat)
    requires p < |owner|
  {
    owner[p].Free? || owner[p].Live? ==>
      var s, k := owner[p].start, owner[p].order;
      && k < NUM_SIZES && Aligned(s, k) && s <= p < s + Pow2(k) <= |owner|
      && forall q | s <= q < s + Pow2(k) :: owner[q] == owner[p]
  }

  ghost predicate Tiled(owner: seq<Owner>) {
    forall p: nat | p < |owner| :: BlockAt(owner, p)
  }

  /** The bit map has a 1 exactly on unreleased pages and on the last page of every live block. */
  ghost predicate Marked(owner: seq<Owner>, p: nat)
    requires p < |owner|
  {
    owner[p].Unreleased? || (owner[p].Live? && p + 1 == owner[p].start + Pow2(owner[p].order))
  }

  ghost predicate BitsOk(bits: seq<bv8>, owner: seq<Owner>) {
    && |owner| <= 8 * |bits|
    && forall p: nat | p < |owner| :: Bit(bits, p) == Marked(owner, p)
  }

  ghost predicate Listed(owner: seq<Owner>, list: seq<Word>, k: nat, s: nat)
    requires s < |owner|
  {
    owner[s] == Free(s, k) ==> s in list
  }

  /** `list` holds exactly the free blocks of order `k`, each once. */
  ghost predicate ListOk(owner: seq<Owner>, list: seq<Word>, k: nat) {
    && (forall i | 0 <= i < |list| :: list[i] < |owner| && owner[list[i]] == Free(list[i], k))
    && (forall i, j | 0 <= i < j < |list| :: list[i] != list[j])
    && (forall s: nat | s < |owner| :: Listed(owner, list, k, s))
  }

  function At(list: seq<Word>, i: int): Word {
    if 0 <= i < |list| then list[i] else OURNULL
  }

  /** Header and trailer of the free block of order `k` at page `o`. */
  ghost predicate NodeOk(mem: seq<Word>, o: nat, k: nat, prev: Word, next: Word) {
    && PAGE_WORDS * (o + Pow2(k)) <= |mem|
    && mem[PAGE_WORDS * o] == MAGIC
    && mem[PAGE_WORDS * o + 1] == prev
    && mem[PAGE_WORDS * o + 2] == next
    && mem[PAGE_WORDS * (o + Pow2(k)) - 1] == k + LEN_OFFSET
  }

  ghost predicate NodeAt(mem: seq<Word>, list: seq<Word>, k: nat, i: nat)
    requires i < |list|
  {
    NodeOk(mem, list[i], k, At(list, i - 1), At(list, i + 1))
  }

  /** The doubly linked list that starts at `head` visits `list` in order. */
  ghost predicate Linked(mem: seq<Word>, head: Word, list: seq<Word>, k: nat) {
    && head == At(list, 0)
    && forall i: nat | i < |list| :: NodeAt(mem, list, k, i)
  }

  ghost predicate OrderOk(mem: seq<Word>, head: Word, owner: seq<Owner>, list: seq<Word>, k: nat) {
    ListOk(owner, list, k) && Linked(mem, head, list, k)
  }

  ghost predicate Shape(mem: seq<Word>, heads: seq<Word>, owner: seq<Owner>, lists: seq<seq<Word>>) {
    && PAGE_BYTES * |owner| < WORD_LIMIT
    && PAGE_WORDS * |owner| <= |mem|
    && |heads| == NUM_SIZES && |lists| == NUM_SIZES
  }

  ghost predicate ListsOk(mem: seq<Word>, heads: seq<Word>, owner: seq<Owner>, lists: seq<seq<Word>>) {
    && Shape(mem, heads, owner, lists)
    && forall k: nat | k < NUM_SIZES :: OrderOk(mem, heads[k], owner, lists[k], k)
  }

  // ----- painting a range of pages -----

  function Paint(owner: seq<Owner>, from: nat, n: nat, o: Owner): (r: seq<Owner>)
    ensures |r| == |owner|
    ensures forall p | 0 <= p < |owner| :: r[p] == if from <= p < from + n then o else owner[p]
  {
    seq(|owner|, p requires 0 <= p < |owner| => if from <= p < from + n then o else owner[p])
  }

  ghost predicate AllAre(owner: seq<Owner>, from: nat, n: nat, o: Owner) {
    from + n <= |owner| && forall p | from <= p < from + n :: owner[p] == o
  }

  lemma TiledAfterBlock(owner: seq<Owner>, s: nat, k: nat, o: Owner)
    requires Tiled(owner)
    requires k < NUM_SIZES && Aligned(s, k) && AllAre(owner, s, Pow2(k), Loose)
    requires o == Free(s, k) || o == Live(s, k)
    ensures Tiled(Paint(owner, s, Pow2(k), o))
  {
    var owner' := Paint(owner, s, Pow2(k), o);
    forall p: nat | p < |owner'|
      ensures BlockAt(owner', p)
    {
      assert BlockAt(owner, p);
      if owner[p].Free? || owner[p].Live? {
        forall q | owner[p].start <= q < owner[p].start + Pow2(owner[p].order)
          ensures owner'[q] == owner'[p]
        {
          assert owner[q] == owner[p];
        }
      }
    }
  }

  lemma TiledAfterLoosen(owner: seq<Owner>, s: nat)
    requires Tiled(owner) && s < |owner| && (owner[s].Free? || owner[s].Live?) && owner[s].start == s
    ensures Tiled(Paint(owner, s, Pow2(owner[s].order), Loose))
  {
    var k := owner[s].order;
    var owner' := Paint(owner, s, Pow2(k), Loose);
    assert BlockAt(owner, s);
    forall p: nat | p < |owner'|
      ensures BlockAt(owner', p)
    {
      assert BlockAt(owner, p);
      if owner'[p].Free? || owner'[p].Live? {
        forall q | owner[p].start <= q < owner[p].start + Pow2(owner[p].order)
          ensures owner'[q] == owner'[p]
        {
          assert owner[q] == owner[p];
        }
      }
    }
  }

  /** Trading loose pages for free ones, or back, leaves the bit map as it was. */
  lemma BitsAfterUnmarked(bits: seq<bv8>, owner: seq<Owner>, from: nat, n: nat, o: Owner)
    requires BitsOk(bits, owner) && (o.Free? || o.Loose?)
    requires forall p | from <= p < from + n && p < |owner| :: owner[p].Free? || owner[p].Loose?
    ensures BitsOk(bits, Paint(owner, from, n, o))
  {
    hide Bit;
    forall p: nat | p < |owner|
      ensures Bit(bits, p) == Marked(Paint(owner, from, n, o), p)
    {
      assert Bit(bits, p) == Marked(owner, p);
    }
  }

  // ----- free pages counted -----

  /** Free pages among the first `n`. */
  ghost function CountFree(owner: seq<Owner>, n: nat): (c: nat)
    requires n <= |owner|
    ensures c <= n
  {
    if n == 0 then 0 else CountFree(owner, n - 1) + if owner[n - 1].Free? then 1 else 0
  }

  ghost function FreePages(owner: seq<Owner>): (c: nat)
    ensures c <= |owner|
  {
    CountFree(owner, |owner|)
  }

  /** How many of the `n` pages from `from` are below `m`. */
  function Below(from: nat, n: nat, m: nat): nat {
    if m <= from then 0 else if m <= from + n then m - from else n
  }

  lemma {:induction false} CountPaintTo(owner: seq<Owner>, from: nat, n: nat, o: Owner, was: bool, m: nat)
    requires from + n <= |owner| && m <= |owner|
    requires forall p | from <= p < from + n :: owner[p].Free? == was
    ensures CountFree(Paint(owner, from, n, o), m) ==
            CountFree(owner, m) + (if o.Free? then Below(from, n, m) else 0) - (if was then Below(from, n, m) else 0)
  {
    if m > 0 {
      CountPaintTo(owner, from, n, o, was, m - 1);
    }
  }

  /** Painting pages changes the count by the pages that enter or leave the free state. */
  lemma CountPaint(owner: seq<Owner>, from: nat, n: nat, o: Owner, was: bool)
    requires from + n <= |owner|
    requires forall p | from <= p < from + n :: owner[p].Free? == was
    ensures FreePages(Paint(owner, from, n, o)) ==
            FreePages(owner) + (if o.Free? then n else 0) - (if was then n else 0)
  {
    CountPaintTo(owner, from, n, o, was, |owner|);
  }

  /** Pages held by the blocks of the first `n` lists. */
  ghost function Total(lists: seq<seq<Word>>, n: nat): nat
    requires n <= |lists|
  {
    if n == 0 then 0 else Total(lists, n - 1) + |lists[n - 1]| * Pow2(n - 1)
  }

  lemma {:induction false} TotalUpdate(lists: seq<seq<Word>>, n: nat, k: nat, list: seq<Word>)
    requires n <= |lists| && k < |lists|
    ensures k >= n ==> Total(lists[k := list], n) == Total(lists, n)
    ensures k < n ==> Total(lists[k := list], n) == Total(lists, n) - |lists[k]| * Pow2(k) + |list| * Pow2(k)
  {
    if n > 0 {
      TotalUpdate(lists, n - 1, k, list);
    }
  }

  lemma {:induction false} TotalCoversList(lists: seq<seq<Word>>, n: nat, k: nat)
    requires k < n <= |lists|
    ensures |lists[k]| * Pow2(k) <= Total(lists, n)
  {
    if k < n - 1 {
      TotalCoversList(lists, n - 1, k);
    }
  }

  // ----- linking and unlinking -----

  function Pushed(lists: seq<seq<Word>>, k: nat, o: Word): seq<seq<Word>>
    requires k < |lists|
  {
    lists[k := [o] + lists[k]]
  }

  function Removed(list: seq<Word>, i: nat): seq<Word>
    requires i < |list|
  {
    list[..i] + list[i + 1..]
  }

  lemma TotalPush(lists: seq<seq<Word>>, k: nat, o: Word)
    requires |lists| == NUM_SIZES && k < NUM_SIZES
    ensures Total(Pushed(lists, k, o), NUM_SIZES) == Total(lists, NUM_SIZES) + Pow2(k)
  {
    hide Total, Pow2;
    TotalUpdate(lists, NUM_SIZES, k, [o] + lists[k]);
    assert (|lists[k]| + 1) * Pow2(k) == |lists[k]| * Pow2(k) + Pow2(k);
  }

  lemma TotalRemove(lists: seq<seq<Word>>, k: nat, i: nat)
    requires |lists| == NUM_SIZES && k < NUM_SIZES && i < |lists[k]|
    ensures Total(lists[k := Removed(lists[k], i)], NUM_SIZES) == Total(lists, NUM_SIZES) - Pow2(k)
  {
    hide Total, Pow2;
    TotalUpdate(lists, NUM_SIZES, k, Removed(lists[k], i));
    assert (|lists[k]| - 1) * Pow2(k) == |lists[k]| * Pow2(k) - Pow2(k);
  }

  /** What `makeFree` and the end of `Free` store: the block's own four words, and one back link. */
  ghost predicate PushWrites(mem: seq<Word>, mem': seq<Word>, list: seq<Word>, o: nat, k: nat) {
    && |mem'| == |mem|
    && NodeOk(mem', o, k, OURNULL, At(list, 0))
    && forall w: nat | w < |mem| && !(PAGE_WORDS * o <= w < PAGE_WORDS * (o + Pow2(k))) ::
         mem'[w] == if |list| > 0 && w == PAGE_WORDS * list[0] + 1 then o else mem[w]
  }

  /** A free block keeps apart from loose pages. */
  lemma FreeApartFromLoose(owner: seq<Owner>, n: nat, j: nat, o: nat, k: nat)
    requires Tiled(owner) && n < |owner| && owner[n] == Free(n, j) && AllAre(owner, o, Pow2(k), Loose)
    ensures n + Pow2(j) <= o || o + Pow2(k) <= n
  {
    assert BlockAt(owner, n) && owner[o] == Loose;
  }

  lemma PushNode(mem: seq<Word>, mem': seq<Word>, list: seq<Word>, o: Word, k: nat,
                 n: nat, j: nat, prev: Word, next: Word)
    requires PushWrites(mem, mem', list, o, k) && NodeOk(mem, n, j, prev, next)
    requires n + Pow2(j) <= o || o + Pow2(k) <= n
    ensures NodeOk(mem', n, j, if |list| > 0 && n == list[0] then o else prev, next)
  {
    hide Pow2;
  }

  lemma PushSameListLinks(mem: seq<Word>, mem': seq<Word>, head: Word, owner: seq<Owner>, list: seq<Word>, o: Word, k: nat)
    requires Tiled(owner) && ListOk(owner, list, k) && Linked(mem, head, list, k)
    requires AllAre(owner, o, Pow2(k), Loose) && PushWrites(mem, mem', list, o, k)
    ensures Linked(mem', o, [o] + list, k)
  {
    var list' := [o] + list;
    forall i: nat | i < |list'|
      ensures NodeAt(mem', list', k, i)
    {
      if i > 0 {
        assert NodeAt(mem, list, k, i - 1);
        FreeApartFromLoose(owner, list[i - 1], k, o, k);
        assert i > 1 ==> list[i - 1] != list[0];
        PushNode(mem, mem', list, o, k, list[i - 1], k, At(list, i - 2), At(list, i));
      }
    }
  }

  lemma PushSameListOk(owner: seq<Owner>, list: seq<Word>, o: Word, k: nat)
    requires ListOk(owner, list, k) && AllAre(owner, o, Pow2(k), Loose)
    ensures ListOk(Paint(owner, o, Pow2(k), Free(o, k)), [o] + list, k)
  {
    var owner', list' := Paint(owner, o, Pow2(k), Free(o, k)), [o] + list;
    assert owner[o] == Loose;
    forall s: nat | s < |owner|
      ensures Listed(owner', list', k, s)
    {
      assert Listed(owner, list, k, s);
    }
  }

  lemma PushOtherList(mem: seq<Word>, mem': seq<Word>, head: Word, owner: seq<Owner>, list: seq<Word>,
                      pushed: seq<Word>, o: Word, k: nat, j: nat)
    requires Tiled(owner) && ListOk(owner, list, j) && Linked(mem, head, list, j)
    requires ListOk(owner, pushed, k) && j != k
    requires AllAre(owner, o, Pow2(k), Loose) && PushWrites(mem, mem', pushed, o, k)
    ensures ListOk(Paint(owner, o, Pow2(k), Free(o, k)), list, j)
    ensures Linked(mem', head, list, j)
  {
    forall s: nat | s < |owner|
      ensures Listed(Paint(owner, o, Pow2(k), Free(o, k)), list, j, s)
    {
      assert Listed(owner, list, j, s);
    }
    forall i: nat | i < |list|
      ensures NodeAt(mem', list, j, i)
    {
      assert NodeAt(mem, list, j, i);
      FreeApartFromLoose(owner, list[i], j, o, k);
      PushNode(mem, mem', pushed, o, k, list[i], j, At(list, i - 1), At(list, i + 1));
    }
  }

  lemma PushOneList(mem: seq<Word>, mem': seq<Word>, head: Word, owner: seq<Owner>, list: seq<Word>,
                    pushed: seq<Word>, o: Word, k: nat, j: nat)
    requires Tiled(owner) && OrderOk(mem, head, owner, list, j) && ListOk(owner, pushed, k)
    requires AllAre(owner, o, Pow2(k), Loose) && PushWrites(mem, mem', pushed, o, k) && (j == k ==> list == pushed)
    ensures OrderOk(mem', if j == k then o else head, Paint(owner, o, Pow2(k), Free(o, k)),
                    if j == k then [o] + list else list, j)
  {
    if j == k {
      PushSameListOk(owner, list, o, k);
      PushSameListLinks(mem, mem', head, owner, list, o, k);
    } else {
      PushOtherList(mem, mem', head, owner, list, pushed, o, k, j);
    }
  }

  /** Putting a loose block at the front of the list of its order. */
  lemma PushKeepsLists(mem: seq<Word>, mem': seq<Word>, heads: seq<Word>, owner: seq<Owner>,
                       lists: seq<seq<Word>>, o: Word, k: nat)
    requires Tiled(owner) && ListsOk(mem, heads, owner, lists) && k < NUM_SIZES
    requires AllAre(owner, o, Pow2(k), Loose) && PushWrites(mem, mem', lists[k], o, k)
    ensures ListsOk(mem', heads[k := o], Paint(owner, o, Pow2(k), Free(o, k)), Pushed(lists, k, o))
  {
    var owner', heads', lists' := Paint(owner, o, Pow2(k), Free(o, k)), heads[k := o], Pushed(lists, k, o);
    assert OrderOk(mem, heads[k], owner, lists[k], k);
    forall j: nat | j < NUM_SIZES
      ensures OrderOk(mem', heads'[j], owner', lists'[j], j)
    {
      PushOneList(mem, mem', heads[j], owner, lists[j], lists[k], o, k, j);
    }
  }

  /** What taking element `i` off its list stores outside the block itself: two links of the neighbours. */
  ghost predicate UnlinkWrites(mem: seq<Word>, mem': seq<Word>, list: seq<Word>, i: nat, k: nat)
    requires i < |list|
  {
    && |mem'| == |mem|
    && forall w: nat | w < |mem| && !(PAGE_WORDS * list[i] <= w < PAGE_WORDS * (list[i] + Pow2(k))) ::
         mem'[w] == if i + 1 < |list| && w == PAGE_WORDS * list[i + 1] + 1 then At(list, i - 1)
                    else if i > 0 && w == PAGE_WORDS * list[i - 1] + 2 then At(list, i + 1)
                    else mem[w]
  }

  lemma UnlinkNode(mem: seq<Word>, mem': seq<Word>, list: seq<Word>, i: nat, k: nat,
                   n: nat, j: nat, prev: Word, next: Word)
    requires i < |list| && UnlinkWrites(mem, mem', list, i, k) && NodeOk(mem, n, j, prev, next)
    requires n + Pow2(j) <= list[i] || list[i] + Pow2(k) <= n
    ensures NodeOk(mem', n, j, if i + 1 < |list| && n == list[i + 1] then At(list, i - 1) else prev,
                   if i > 0 && n == list[i - 1] then At(list, i + 1) else next)
  {
  }

  lemma FreeBlocksApart(owner: seq<Owner>, n: nat, j: nat, o: nat, k: nat)
    requires Tiled(owner) && n < |owner| && owner[n] == Free(n, j) && o < |owner| && owner[o] == Free(o, k)
    requires n != o
    ensures n + Pow2(j) <= o || o + Pow2(k) <= n
  {
    assert BlockAt(owner, n) && BlockAt(owner, o);
  }

  lemma RemovedAt(list: seq<Word>, i: nat, m: int)
    requires i < |list|
    ensures At(Removed(list, i), m) == if m < i then At(list, m) else At(list, m + 1)
  {
  }

  lemma UnlinkNeighbour(mem: seq<Word>, mem': seq<Word>, owner: seq<Owner>, list: seq<Word>, i: nat, k: nat, j: nat)
    requires Tiled(owner) && ListOk(owner, list, k) && j < |list| && NodeAt(mem, list, k, j)
    requires i < |list| && i != j && UnlinkWrites(mem, mem', list, i, k)
    ensures NodeOk(mem', list[j], k, if j == i + 1 then At(list, i - 1) else At(list, j - 1),
                   if j == i - 1 then At(list, i + 1) else At(list, j + 1))
  {
    FreeBlocksApart(owner, list[j], k, list[i], k);
    assert i + 1 < |list| && j != i + 1 ==> list[j] != list[i + 1];
    assert i > 0 && j != i - 1 ==> list[j] != list[i - 1];
    UnlinkNode(mem, mem', list, i, k, list[j], k, At(list, j - 1), At(list, j + 1));
  }

  lemma UnlinkSameListLinks(mem: seq<Word>, mem': seq<Word>, owner: seq<Owner>, list: seq<Word>,
                            i: nat, k: nat, m: nat)
    requires Tiled(owner) && ListOk(owner, list, k) && m < |list| - 1
    requires i < |list| && UnlinkWrites(mem, mem', list, i, k)
    requires NodeAt(mem, list, k, if m < i then m else m + 1)
    ensures NodeAt(mem', Removed(list, i), k, m)
  {
    var j := if m < i then m else m + 1;
    UnlinkNeighbour(mem, mem', owner, list, i, k, j);
    RemovedAt(list, i, m - 1);
    RemovedAt(list, i, m);
    RemovedAt(list, i, m + 1);
  }

  lemma UnlinkSameListOk(owner: seq<Owner>, list: seq<Word>, i: nat, k: nat)
    requires Tiled(owner) && ListOk(owner, list, k) && i < |list|
    ensures ListOk(Paint(owner, list[i], Pow2(k), Loose), Removed(list, i), k)
  {
    var o, list' := list[i], Removed(list, i);
    var owner' := Paint(owner, o, Pow2(k), Loose);
    forall m | 0 <= m < |list'|
      ensures list'[m] < |owner| && owner'[list'[m]] == Free(list'[m], k)
    {
      var j := if m < i then m else m + 1;
      assert list'[m] == list[j];
      FreeBlocksApart(owner, list[j], k, o, k);
    }
    forall s: nat | s < |owner|
      ensures Listed(owner', list', k, s)
    {
      assert Listed(owner, list, k, s);
      if owner'[s] == Free(s, k) {
        RemovedHas(list, i, s);
      }
    }
  }

  lemma RemovedHas(list: seq<Word>, i: nat, s: Word)
    requires i < |list| && s in list && s != list[i]
    ensures s in Removed(list, i)
  {
    var j :| 0 <= j < |list| && list[j] == s;
    assert Removed(list, i)[if j < i then j else j - 1] == s;
  }

  lemma UnlinkOtherListOk(owner: seq<Owner>, list: seq<Word>, o: nat, k: nat, j: nat)
    requires Tiled(owner) && ListOk(owner, list, j) && o < |owner| && owner[o] == Free(o, k) && j != k
    ensures ListOk(Paint(owner, o, Pow2(k), Loose), list, j)
  {
    forall s: nat | s < |owner|
      ensures Listed(Paint(owner, o, Pow2(k), Loose), list, j, s)
    {
      assert Listed(owner, list, j, s);
    }
    forall m | 0 <= m < |list|
      ensures !(o <= list[m] < o + Pow2(k))
    {
      FreeBlocksApart(owner, list[m], j, o, k);
    }
  }

  lemma UnlinkOtherListLinks(mem: seq<Word>, mem': seq<Word>, head: Word, owner: seq<Owner>, list: seq<Word>,
                             cut: seq<Word>, i: nat, k: nat, j: nat)
    requires Tiled(owner) && ListOk(owner, list, j) && Linked(mem, head, list, j)
    requires ListOk(owner, cut, k) && j != k && i < |cut| && UnlinkWrites(mem, mem', cut, i, k)
    ensures Linked(mem', head, list, j)
  {
    forall m: nat | m < |list|
      ensures NodeAt(mem', list, j, m)
    {
      assert NodeAt(mem, list, j, m);
      FreeBlocksApart(owner, list[m], j, cut[i], k);
      UnlinkNode(mem, mem', cut, i, k, list[m], j, At(list, m - 1), At(list, m + 1));
    }
  }

  lemma UnlinkSameLinked(mem: seq<Word>, mem': seq<Word>, head: Word, owner: seq<Owner>, list: seq<Word>, i: nat, k: nat)
    requires Tiled(owner) && ListOk(owner, list, k) && Linked(mem, head, list, k)
    requires i < |list| && UnlinkWrites(mem, mem', list, i, k)
    ensures Linked(mem', if i == 0 then At(list, 1) else head, Removed(list, i), k)
  {
    RemovedAt(list, i, 0);
    assert i == 0 ==> At(Removed(list, i), 0) == At(list, 1);
    forall m: nat | m < |list| - 1
      ensures NodeAt(mem', Removed(list, i), k, m)
    {
      assert NodeAt(mem, list, k, if m < i then m else m + 1);
      UnlinkSameListLinks(mem, mem', owner, list, i, k, m);
    }
  }

  lemma UnlinkOneList(mem: seq<Word>, mem': seq<Word>, head: Word, owner: seq<Owner>, list: seq<Word>,
                      cut: seq<Word>, i: nat, k: nat, j: nat)
    requires Tiled(owner) && OrderOk(mem, head, owner, list, j) && ListOk(owner, cut, k)
    requires i < |cut| && UnlinkWrites(mem, mem', cut, i, k) && (j == k ==> list == cut)
    ensures OrderOk(mem', if j == k && i == 0 then At(cut, 1) else head, Paint(owner, cut[i], Pow2(k), Loose),
                    if j == k then Removed(cut, i) else list, j)
  {
    if j == k {
      UnlinkSameListOk(owner, list, i, k);
      UnlinkSameLinked(mem, mem', head, owner, list, i, k);
    } else {
      UnlinkOtherListOk(owner, list, cut[i], k, j);
      UnlinkOtherListLinks(mem, mem', head, owner, list, cut, i, k, j);
    }
  }

  /** Taking a free block off its list, wherever it stands there, makes its pages loose. */
  lemma UnlinkKeepsLists(mem: seq<Word>, mem': seq<Word>, heads: seq<Word>, owner: seq<Owner>,
                         lists: seq<seq<Word>>, i: nat, k: nat)
    requires Tiled(owner) && ListsOk(mem, heads, owner, lists) && k < NUM_SIZES
    requires i < |lists[k]| && UnlinkWrites(mem, mem', lists[k], i, k)
    ensures ListsOk(mem', if i == 0 then heads[k := At(lists[k], 1)] else heads,
                    Paint(owner, lists[k][i], Pow2(k), Loose), lists[k := Removed(lists[k], i)])
  {
    var owner' := Paint(owner, lists[k][i], Pow2(k), Loose);
    var heads' := if i == 0 then heads[k := At(lists[k], 1)] else heads;
    var lists' := lists[k := Removed(lists[k], i)];
    assert OrderOk(mem, heads[k], owner, lists[k], k);
    forall j: nat | j < NUM_SIZES
      ensures OrderOk(mem', heads'[j], owner', lists'[j], j)
    {
      UnlinkOneList(mem, mem', heads[j], owner, lists[j], lists[k], i, k, j);
    }
  }
}
