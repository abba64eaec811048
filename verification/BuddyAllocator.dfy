/** The VRAM allocator: a buddy system that keeps its lists inside the memory it manages. */
module BuddyAllocator {
  import opened Returns
  import opened Words
  import opened PowersOfTwo
  import opened ByteMap
  import opened BuddyModel
  import opened Coalescing
  import opened BuddySpec
  import opened BuddyRelease

  class VMsvga2Allocator {
    var poolStart: nat
    var poolBlocks: nat
    var pool: array<Word>
    var freeList: array<Word>
    var bits: array?<bv8>
    var freeBytes: nat

    /** The block that holds each page, and each free list in order. */
    ghost var layout: Layout

    ghost predicate Wired()
      reads this
    {
      && bits != null && pool != freeList && bits as object != pool && bits as object != freeList
      && poolStart % PAGE_BYTES == 0
      && PAGE_BYTES * poolBlocks < WORD_LIMIT && PAGE_WORDS * poolBlocks <= pool.Length
      && poolBlocks == |layout.owner| && freeList.Length == NUM_SIZES && |layout.lists| == NUM_SIZES
      && bits.Length == (poolBlocks + 7) / 8
    }

    /** Everything but the totals, also in the middle of a call. */
    ghost predicate Core()
      reads this, pool, freeList, bits
    {
      Wired() && Consistent(pool[..], freeList[..], bits[..], layout.owner, layout.lists)
    }

    ghost predicate Valid()
      reads this, pool, freeList, bits
    {
      && Core()
      && NoneLoose(layout.owner)
      && freeBytes == PAGE_BYTES * FreePages(layout.owner)
    }

    /** `init`. */
    constructor ()
      ensures bits == null && freeList.Length == NUM_SIZES && pool != freeList && fresh(freeList)
    {
      bits := null;
      freeList := new Word[NUM_SIZES];
      pool := new Word[0];
      poolStart, poolBlocks, freeBytes := 0, 0, 0;
      layout := Layout([], []);
    }

    /** `Init`: manage `bytes` bytes at `startAddress`, which are the words of `vram`, all of it held back
        for now. `mapMemory` says whether the bit map can be allocated. */
    method Init(startAddress: nat, bytes: nat, vram: array<Word>, mapMemory: bool) returns (ret: IOReturn)
      requires bytes <= 4 * vram.Length && freeList.Length == NUM_SIZES && vram != freeList
      modifies this, freeList
      ensures ret == BadArgument <==> startAddress % PAGE_BYTES != 0 || bytes >= WORD_LIMIT
      ensures ret == BadArgument ==> unchanged(this) && unchanged(freeList)
      ensures ret != BadArgument ==> ret == if mapMemory then Success else NoMemory
      ensures ret == NoMemory ==> bits == null
      ensures freeList == old(freeList)
      ensures ret == Success ==>
                && Valid() && Coalesced(layout.owner) && poolStart == startAddress && pool == vram
                && fresh(bits) && freeBytes == 0
                && layout.owner == seq(bytes / PAGE_BYTES, _ => Unreleased)
    {
      if startAddress % PAGE_BYTES != 0 {
        return BadArgument;
      }
      if bytes >= WORD_LIMIT {
        return BadArgument;
      }
      bits := null;
      poolStart := startAddress;
      poolBlocks := bytes / PAGE_BYTES;
      pool := vram;
      if !mapMemory {
        return NoMemory;
      }
      freeBytes := 0;
      bits := new bv8[(poolBlocks + 7) / 8](_ => 0xFF);
      for i := 0 to NUM_SIZES
        invariant forall k | 0 <= k < i :: freeList[k] == OURNULL
        modifies freeList
      {
        freeList[i] := OURNULL;
      }
      layout := Layout(seq(poolBlocks, _ => Unreleased), seq(NUM_SIZES, _ => []));
      InitConsistent(pool[..], freeList[..], bits[..], layout);
      ret := Success;
    }

    /** `Rebase`: the same memory is now mapped elsewhere. */
    method Rebase(newStartAddress: nat) returns (ret: IOReturn)
      requires Valid()
      modifies this`poolStart
      ensures Valid()
      ensures ret == if newStartAddress % PAGE_BYTES == 0 then Success else BadArgument
      ensures poolStart == if ret == Success then newStartAddress else old(poolStart)
    {
      hide Consistent, FreePages;
      if newStartAddress % PAGE_BYTES != 0 {
        return BadArgument;
      }
      poolStart := newStartAddress;
      ret := Success;
    }

    /** `Available`. */
    method Available() returns (bytesFree: nat)
      requires Valid()
      ensures bytesFree == PAGE_BYTES * FreePages(layout.owner)
    {
      bytesFree := freeBytes;
    }

    /** What `Check` asks of one block of a free list, the `i`-th here. No question has the wrong answer. */
    method CheckBlock(size: nat, offset: Word, prevOffset: Word, ghost i: nat) returns (rc: IOReturn, next: Word)
      requires Valid() && size < NUM_SIZES && i < |layout.lists[size]|
      requires offset == At(layout.lists[size], i) && prevOffset == At(layout.lists[size], i - 1)
      ensures rc == Success && next == At(layout.lists[size], i + 1)
    {
      hide Consistent, Pow2, Bit, FreePages, NoneLoose, Unseen;
      CheckNode(pool[..], freeList[..], bits[..], layout, size, i);
      next := offset;
      if offset >= poolBlocks {
        return InternalError, next;
      }
      var any := TestAny(bits, offset, offset + Pow2(size));
      if any {
        return InternalError, next;
      }
      if pool[PAGE_WORDS * offset] != MAGIC {
        return InternalError, next;
      }
      if pool[PAGE_WORDS * offset + 1] != prevOffset {
        return InternalError, next;
      }
      if pool[PAGE_WORDS * (offset + Pow2(size)) - 1] != size + LEN_OFFSET {
        return InternalError, next;
      }
      next := pool[PAGE_WORDS * offset + 2];
      rc := Success;
    }

    /** The walk of `Check` along one free list. It meets every block of the list and no contradiction. */
    method CheckList(size: nat) returns (rc: IOReturn, blocksSeen: nat)
      requires Valid() && size < NUM_SIZES
      ensures rc == Success && blocksSeen == |layout.lists[size]|
    {
      ghost var list := layout.lists[size];
      hide Consistent, Pow2, FreePages, NoneLoose;
      CheckFacts(pool[..], freeList[..], bits[..], layout, size);
      var offset, prevOffset := freeList[size], OURNULL;
      blocksSeen := 0;
      var maxBlocks := poolBlocks / Pow2(size);
      while offset != OURNULL && blocksSeen < maxBlocks
        invariant blocksSeen <= |list| && offset == At(list, blocksSeen) && prevOffset == At(list, blocksSeen - 1)
        decreases |list| - blocksSeen
      {
        var ok, next := CheckBlock(size, offset, prevOffset, blocksSeen);
        if ok != Success {
          return ok, blocksSeen;
        }
        prevOffset := offset;
        offset := next;
        blocksSeen := blocksSeen + 1;
      }
      NoNullListed(pool[..], freeList[..], bits[..], layout, size);
      if offset != OURNULL {
        return InternalError, blocksSeen;
      }
      rc := Success;
    }

    /** `Check`: always succeeds on a pool that only the allocator and well-behaved clients wrote, and
        counts the free blocks of each size. */
    method Check() returns (rc: IOReturn, counts: seq<nat>)
      requires Valid()
      ensures rc == Success && |counts| == NUM_SIZES
      ensures forall k | 0 <= k < NUM_SIZES :: counts[k] == |layout.lists[k]|
    {
      hide Consistent, Pow2, FreePages, NoneLoose;
      ListsFacts(pool[..], freeList[..], bits[..], layout.owner, layout.lists);
      counts := [];
      var seenStore := 0;
      var size := 0;
      while size < NUM_SIZES
        invariant 0 <= size <= NUM_SIZES && |counts| == size
        invariant forall k | 0 <= k < size :: counts[k] == |layout.lists[k]|
        invariant seenStore == Total(layout.lists, size)
      {
        var blocksSeen;
        rc, blocksSeen := CheckList(size);
        if rc != Success {
          return;
        }
        seenStore := seenStore + blocksSeen * Pow2(size);
        counts := counts + [blocksSeen];
        size := size + 1;
      }
      if PAGE_BYTES * seenStore != freeBytes {
        return InternalError, counts;
      }
      rc := Success;
    }

    /** The page a pool pointer points to, if it is the start of a page of the pool. */
    function PageOf(p: nat): (r: Option<nat>)
      reads this`poolStart, this`poolBlocks
      ensures r.Some? <==> poolStart <= p < poolStart + 4096 * poolBlocks && (p - poolStart) % 4096 == 0
      ensures r.Some? ==> r.value < poolBlocks && p == poolStart + 4096 * r.value
    {
      if p < poolStart || (p - poolStart) % PAGE_BYTES != 0 || (p - poolStart) / PAGE_BYTES >= poolBlocks then None
      else Some((p - poolStart) / PAGE_BYTES)
    }

    lemma PageAt(p: nat, o: nat)
      ensures PageOf(p) == Some(o) <==> o < poolBlocks && p == poolStart + PAGE_BYTES * o
    {
    }

    /** The allocator and the memory it manages are as the arguments say. */
    ghost predicate Unchanged(mem: seq<Word>, heads: seq<Word>, marks: seq<bv8>, was: Layout, wasFree: nat)
      requires bits != null
      reads this, pool, freeList, bits
    {
      pool[..] == mem && freeList[..] == heads && bits[..] == marks && layout == was && freeBytes == wasFree
    }

    /** `makeFree`: adds a single aligned range to a single free list. */
    method MakeFree(firstFree: Word, bitsFree: nat)
      requires Core() && bitsFree < NUM_SIZES && Aligned(firstFree, bitsFree)
      requires AllAre(layout.owner, firstFree, Pow2(bitsFree), Loose)
      requires freeBytes + PAGE_BYTES * Pow2(bitsFree) < WORD_LIMIT
      modifies this`freeBytes, this`layout, pool, freeList
      ensures Core()
      ensures layout.owner == Paint(old(layout.owner), firstFree, Pow2(bitsFree), Owner.Free(firstFree, bitsFree))
      ensures freeBytes == old(freeBytes) + PAGE_BYTES * Pow2(bitsFree)
      ensures FreePages(layout.owner) == FreePages(old(layout.owner)) + Pow2(bitsFree)
      ensures SameElsewhere(old(pool[..]), pool[..], layout.owner)
    {
      ghost var mem, heads, marks := pool[..], freeList[..], bits[..];
      hide *;
      LinkFront(firstFree, bitsFree);
      PushConsistent(mem, pool[..], heads, marks, layout.owner, layout.lists, firstFree, bitsFree);
      ghost var after := Layout(Paint(layout.owner, firstFree, Pow2(bitsFree), Owner.Free(firstFree, bitsFree)),
                                Pushed(layout.lists, bitsFree, firstFree));
      assert Consistent(pool[..], freeList[..], bits[..], after.owner, after.lists);
      layout := after;
      freeBytes := freeBytes + PAGE_BYTES * Pow2(bitsFree);
    }

    /** `toFree`: hands a loose range to the free lists, cut into the largest aligned blocks that it
        holds. Over the whole range the inner loops step up and down at most once over the orders. */
    method ToFree(firstBlock: nat, pastBlock: nat) returns (ghost steps: nat)
      requires Core() && pastBlock <= poolBlocks
      requires forall p | firstBlock <= p < pastBlock :: layout.owner[p] == Loose
      requires firstBlock <= pastBlock ==> freeBytes + PAGE_BYTES * (pastBlock - firstBlock) < WORD_LIMIT
      modifies this`freeBytes, this`layout, pool, freeList
      ensures Core() && |layout.owner| == |old(layout.owner)|
      ensures CanonicalIn(layout.owner, firstBlock, pastBlock)
      ensures forall p | 0 <= p < |layout.owner| && !(firstBlock <= p < pastBlock) :: layout.owner[p] == old(layout.owner[p])
      ensures freeBytes == old(freeBytes) + if firstBlock <= pastBlock then PAGE_BYTES * (pastBlock - firstBlock) else 0
      ensures freeBytes - PAGE_BYTES * FreePages(layout.owner) == old(freeBytes - PAGE_BYTES * FreePages(layout.owner))
      ensures SameElsewhere(old(pool[..]), pool[..], layout.owner)
      ensures steps <= 2 * (NUM_SIZES - 1)
    {
      hide Consistent, Pow2, Aligned, CutTo, MaximalAt, NoStraddle, SameElsewhere, FreePages;
      var i: nat, tryBits: nat := firstBlock, 0;
      ghost var ups: nat, downs: nat, falling := 0, 0, false;
      CutStart(layout.owner, firstBlock, pastBlock);
      SameElsewhereRefl(pool[..], layout.owner);
      while i < pastBlock
        invariant firstBlock <= i && (i <= pastBlock || i == firstBlock) && tryBits < NUM_SIZES
        invariant Core() && |layout.owner| == |old(layout.owner)|
        invariant CutTo(old(layout.owner), layout.owner, firstBlock, pastBlock, i) && NoStraddle(firstBlock, pastBlock, i)
        invariant freeBytes == old(freeBytes) + PAGE_BYTES * (i - firstBlock)
        invariant freeBytes - PAGE_BYTES * FreePages(layout.owner) == old(freeBytes - PAGE_BYTES * FreePages(layout.owner))
        invariant SameElsewhere(old(pool[..]), pool[..], layout.owner)
        invariant Aligned(i, tryBits) && ups < NUM_SIZES
        invariant if falling then pastBlock - i < Pow2(tryBits) && downs + tryBits <= ups
                  else downs == 0 && ups == tryBits
        decreases pastBlock - i
      {
        var last := tryBits;
        var tryLen;
        ghost var up, down;
        tryBits, tryLen, up, down := PickOrder(i, pastBlock, last);
        RiseThenFall(i, pastBlock, last, tryBits, falling);
        ups, downs := ups + up, downs + down;
        falling := falling || tryBits < last;
        CutNext(old(layout.owner), layout.owner, firstBlock, pastBlock, i, tryBits);
        ghost var owner0, mem0 := layout.owner, pool[..];
        MakeFree(i, tryBits);
        SameElsewhereGrow(old(pool[..]), mem0, pool[..], owner0, layout.owner);
        i := i + tryLen;
      }
      CutDone(old(layout.owner), layout.owner, firstBlock, pastBlock, i);
      steps := ups + downs;
    }

    /** The stores of `makeFree`: header, trailer, back link of the old head, new head. */
    method LinkFront(o: Word, k: nat)
      requires Core() && k < NUM_SIZES && AllAre(layout.owner, o, Pow2(k), Loose)
      modifies pool, freeList
      ensures PushWrites(old(pool[..]), pool[..], layout.lists[k], o, k)
      ensures freeList[..] == old(freeList[..])[k := o]
    {
      hide Consistent, Pow2;
      HeadOf(pool[..], freeList[..], bits[..], layout.owner, layout.lists, k);
      assert layout.owner[o] == Loose;
      var nextOff := freeList[k];
      pool[PAGE_WORDS * o] := MAGIC;
      pool[PAGE_WORDS * o + 1] := OURNULL;
      pool[PAGE_WORDS * o + 2] := nextOff;
      pool[PAGE_WORDS * (o + Pow2(k)) - 1] := k + LEN_OFFSET;
      if nextOff != OURNULL {
        pool[PAGE_WORDS * nextOff + 1] := o;
      }
      freeList[k] := o;
    }

    /** The checks and stores of `BuddyMalloc` that take the first block off a list.
        None of the checks for corruption can fail. */
    method PopHead(retBits: nat) returns (rc: IOReturn, offset: Word)
      requires Core() && retBits < NUM_SIZES && layout.lists[retBits] != []
      modifies pool, freeList
      ensures rc == Success && offset == old(freeList[retBits])
      ensures UnlinkWrites(old(pool[..]), pool[..], layout.lists[retBits], 0, retBits)
      ensures freeList[..] == old(freeList[..])[retBits := At(layout.lists[retBits], 1)]
    {
      hide Aligned, Consistent, Pow2;
      FirstOf(pool[..], freeList[..], bits[..], layout.owner, layout.lists, retBits);
      offset := freeList[retBits];
      if offset >= poolBlocks {
        return InternalError, offset;
      }
      if pool[PAGE_WORDS * offset] != MAGIC {
        return InternalError, offset;
      }
      if pool[PAGE_WORDS * offset + 1] != OURNULL {
        return InternalError, offset;
      }
      if pool[PAGE_WORDS * (offset + Pow2(retBits)) - 1] != retBits + LEN_OFFSET {
        return InternalError, offset;
      }
      var nextOffset: Word := pool[PAGE_WORDS * offset + 2];
      if nextOffset != OURNULL {
        if nextOffset >= poolBlocks {
          return InternalError, offset;
        }
        if pool[PAGE_WORDS * nextOffset] != MAGIC || pool[PAGE_WORDS * nextOffset + 1] != offset {
          return InternalError, offset;
        }
        pool[PAGE_WORDS * nextOffset + 1] := OURNULL;
      }
      freeList[retBits] := nextOffset;
      rc := Success;
    }

    method TakeFirst(retBits: nat) returns (rc: IOReturn, offset: Word)
      requires Core() && retBits < NUM_SIZES && layout.lists[retBits] != []
      modifies this`layout, pool, freeList
      ensures rc == Success && Core() && SameElsewhere(old(pool[..]), pool[..], old(layout.owner))
      ensures offset < |old(layout.owner)| && old(layout.owner[offset]) == Owner.Free(offset, retBits)
      ensures layout.owner == Paint(old(layout.owner), offset, Pow2(retBits), Loose)
      ensures AllAre(old(layout.owner), offset, Pow2(retBits), Owner.Free(offset, retBits))
      ensures Aligned(offset, retBits) && FreePages(layout.owner) == FreePages(old(layout.owner)) - Pow2(retBits)
    {
      ghost var mem, heads, marks := pool[..], freeList[..], bits[..];
      hide Aligned, Consistent, Pow2, SameElsewhere, FreePages, UnlinkWrites;
      FirstOf(mem, heads, marks, layout.owner, layout.lists, retBits);
      rc, offset := PopHead(retBits);
      UnlinkConsistent(mem, pool[..], heads, marks, layout.owner, layout.lists, 0, retBits);
      layout := Layout(Paint(layout.owner, offset, Pow2(retBits), Loose), layout.lists[retBits := Removed(layout.lists[retBits], 0)]);
    }

    /** The rest of `BuddyMalloc`: of the block of order `retBits` taken off its list, the front becomes
        live and what remains goes back to the lists. */
    method Carve(offset: Word, b: nat, retBits: nat)
      requires Core() && b <= retBits < NUM_SIZES && Aligned(offset, retBits)
      requires AllAre(layout.owner, offset, Pow2(retBits), Loose)
      requires freeBytes >= PAGE_BYTES * Pow2(retBits) && freeBytes < WORD_LIMIT
      modifies this`freeBytes, this`layout, pool, freeList, bits
      ensures Core() && CutFront(old(layout.owner), layout.owner, offset, b, retBits)
      ensures freeBytes == old(freeBytes) - PAGE_BYTES * Pow2(b)
      ensures freeBytes - PAGE_BYTES * FreePages(layout.owner) ==
              old(freeBytes - PAGE_BYTES * FreePages(layout.owner)) - PAGE_BYTES * Pow2(retBits)
      ensures SameElsewhere(old(pool[..]), pool[..], old(layout.owner))
    {
      ghost var mem, was := pool[..], layout.owner;
      hide *;
      PoolSize();
      Pow2Monotone(b, retBits);
      AlignedWeaken(offset, b, retBits);
      PaintedLooseStays(was, offset, Pow2(b), Pow2(retBits), Live(offset, b));
      MarkLive(offset, b, PAGE_BYTES * Pow2(retBits));
      ghost var mid := layout.owner;
      ghost var steps := ToFree(offset + Pow2(b), offset + Pow2(retBits));
      CarveFacts(mem, pool[..], was, mid, layout.owner, offset, b, retBits);
    }

    lemma PoolSize()
      requires Core()
      ensures poolBlocks == |layout.owner|
    {
      hide Consistent;
    }

    /** Sets the bit of the last page of a block that becomes live, and takes the block it is cut from off
        the free bytes. */
    method MarkLive(o: nat, b: nat, debit: nat)
      requires Core() && b < NUM_SIZES && Aligned(o, b) && AllAre(layout.owner, o, Pow2(b), Loose) && debit <= freeBytes
      modifies this`layout, this`freeBytes, bits
      ensures freeBytes == old(freeBytes) - debit
      ensures Core() && layout.owner == Paint(old(layout.owner), o, Pow2(b), Live(o, b))
      ensures FreePages(layout.owner) == FreePages(old(layout.owner))
    {
      ghost var mem, heads, marks := pool[..], freeList[..], bits[..];
      hide Aligned, Consistent, Pow2, FreePages, Bit;
      SetBit(bits, o + Pow2(b) - 1);
      LiveConsistent(mem, heads, marks, bits[..], layout.owner, layout.lists, o, b);
      layout := Layout(Paint(layout.owner, o, Pow2(b), Live(o, b)), layout.lists);
      freeBytes := freeBytes - debit;
    }

    /** The search of `BuddyMalloc` for the first list with blocks big enough. */
    method FindList(b: nat) returns (retBits: nat)
      requires Core() && b <= NUM_SIZES
      ensures b <= retBits <= NUM_SIZES && forall k: nat | b <= k < retBits :: layout.lists[k] == []
      ensures retBits < NUM_SIZES ==> layout.lists[retBits] != []
    {
      hide Consistent;
      retBits := b;
      while retBits < NUM_SIZES
        invariant b <= retBits <= NUM_SIZES
        invariant forall k: nat | b <= k < retBits :: layout.lists[k] == []
      {
        HeadOf(pool[..], freeList[..], bits[..], layout.owner, layout.lists, retBits);
        if freeList[retBits] != OURNULL {
          break;
        }
        retBits := retBits + 1;
      }
    }

    /** The end of `BuddyMalloc`, once a list is found: take its first block and split it. */
    method Place(b: nat, retBits: nat) returns (rc: IOReturn, offset: nat)
      requires Valid() && b <= retBits < NUM_SIZES && layout.lists[retBits] != []
      requires forall k: nat | b <= k < retBits :: layout.lists[k] == []
      modifies this`freeBytes, this`layout, pool, freeList, bits
      ensures Valid() && rc == Success && Allocated(old(layout.owner), layout.owner, offset, b)
      ensures freeBytes == old(freeBytes) - PAGE_BYTES * Pow2(b)
      ensures SameElsewhere(old(pool[..]), pool[..], old(layout.owner))
      ensures Coalesced(old(layout.owner)) ==> Coalesced(layout.owner)
    {
      ghost var mem, was := pool[..], layout.owner;
      hide *;
      PlaceFacts(mem, freeList[..], bits[..], layout.owner, layout.lists, b, retBits);
      rc, offset := TakeFirst(retBits);
      if rc != Success {
        return;
      }
      ghost var loosened, mem1 := layout.owner, pool[..];
      Carve(offset, b, retBits);
      ListsFacts(pool[..], freeList[..], bits[..], layout.owner, layout.lists);
      AllocatedWhole(was, loosened, layout.owner, offset, b, retBits);
      if Coalesced(was) {
        AllocatedKeepsCoalesced(was, layout.owner, offset, b);
      }
      SameElsewhereSame(mem, mem1, pool[..], was, loosened);
    }

    /** `BuddyMalloc`. It fails only when no list of sufficient order holds a block. */
    method BuddyMalloc(b: nat, cell: nat) returns (rc: IOReturn, newStore: nat)
      requires Valid() && b <= NUM_SIZES
      modifies this`freeBytes, this`layout, pool, freeList, bits
      ensures Valid() && (rc == Success || rc == NoMemory)
      ensures rc == NoMemory <==> forall k: nat | b <= k < NUM_SIZES :: old(layout.lists)[k] == []
      ensures rc == NoMemory ==> newStore == cell && Unchanged(old(pool[..]), old(freeList[..]), old(bits[..]),
                                                               old(layout), old(freeBytes))
      ensures rc == Success ==>
                && newStore >= poolStart && (newStore - poolStart) % PAGE_BYTES == 0
                && Allocated(old(layout.owner), layout.owner, (newStore - poolStart) / PAGE_BYTES, b)
                && newStore + PAGE_BYTES * Pow2(b) <= poolStart + PAGE_BYTES * poolBlocks
                && freeBytes == old(freeBytes) - PAGE_BYTES * Pow2(b)
                && SameElsewhere(old(pool[..]), pool[..], old(layout.owner))
      ensures Coalesced(old(layout.owner)) ==> Coalesced(layout.owner)
    {
      hide Consistent, Pow2, SameElsewhere, FreePages, CanonicalIn, Coalesced, NoneLoose;
      newStore := cell;
      if freeBytes < PAGE_BYTES * Pow2(b) {
        TooFewPages(pool[..], freeList[..], bits[..], layout.owner, layout.lists, b);
        return NoMemory, newStore;
      }
      var retBits := FindList(b);
      if retBits >= NUM_SIZES {
        return NoMemory, newStore;
      }
      var offset;
      rc, offset := Place(b, retBits);
      if rc != Success {
        return;
      }
      newStore := poolStart + PAGE_BYTES * offset;
    }

    /** `Malloc`. With coalesced free blocks it fails only if the block cannot be placed at all. */
    method Malloc(bytes: nat, cell: nat) returns (rc: IOReturn, newStore: nat)
      requires Valid()
      modifies this`freeBytes, this`layout, pool, freeList, bits
      ensures Valid()
      ensures rc == Success <==> SomeBlock(old(layout.owner), OrderFor(bytes))
      ensures Coalesced(old(layout.owner)) ==>
                (rc == Success <==> OrderFor(bytes) < NUM_SIZES && Placeable(old(layout.owner), OrderFor(bytes)))
      ensures rc != Success ==>
                && rc == (if OrderFor(bytes) > NUM_SIZES then NoResources else NoMemory) && newStore == cell
                && Unchanged(old(pool[..]), old(freeList[..]), old(bits[..]), old(layout), old(freeBytes))
      ensures rc == Success ==>
                && newStore >= poolStart && (newStore - poolStart) % PAGE_BYTES == 0
                && Allocated(old(layout.owner), layout.owner, (newStore - poolStart) / PAGE_BYTES, OrderFor(bytes))
                && newStore + PAGE_BYTES * Pow2(OrderFor(bytes)) <= poolStart + PAGE_BYTES * poolBlocks
                && bytes <= PAGE_BYTES * Pow2(OrderFor(bytes))
                && freeBytes == old(freeBytes) - PAGE_BYTES * Pow2(OrderFor(bytes))
                && SameElsewhere(old(pool[..]), pool[..], old(layout.owner))
      ensures Coalesced(old(layout.owner)) ==> Coalesced(layout.owner)
    {
      hide Consistent, SameElsewhere, FreePages, Coalesced, NoneLoose, Allocated, SomeBlock, Placeable, OrderFor;
      EmptyListsMeanNoBlock(pool[..], freeList[..], bits[..], layout.owner, layout.lists, OrderFor(bytes));
      newStore := cell;
      var k, size := 0, PAGE_BYTES;
      while size < bytes
        invariant size == PAGE_BYTES * Pow2(k) && 0 <= k <= NUM_SIZES
        invariant k > 0 ==> PAGE_BYTES * Pow2(k - 1) < bytes
        modifies {}
        decreases NUM_SIZES - k
      {
        if k >= NUM_SIZES {
          OrderForFits(bytes, k);
          return NoResources, newStore;
        }
        size := 2 * size;
        k := k + 1;
      }
      OrderForFits(bytes, k);
      if k > 0 {
        OrderForFits(bytes, k - 1);
      }
      rc, newStore := BuddyMalloc(k, cell);
    }

    /** The doubling probe of `BuddyAllocSize`. */
    method Probe(blockOff: nat) returns (ret: IOReturn, numBits: nat)
      requires Wired() && blockOff < poolBlocks
      ensures ret == Success ==> EndsAt(bits[..], poolBlocks, blockOff, numBits)
      ensures ret != Success ==> ret == NotAligned && forall k: nat :: !EndsAt(bits[..], poolBlocks, blockOff, k)
    {
      hide Bit, Aligned, Pow2, NoEndBelow, EndsAt;
      var blocks := 1;
      numBits := 0;
      assert Pow2(0) == 1 && NoEndBelow(bits[..], poolBlocks, blockOff, 0) by { ProbeStart(bits[..], poolBlocks, blockOff); }
      while true
        invariant blocks == Pow2(numBits) && numBits <= NUM_SIZES
        invariant NoEndBelow(bits[..], poolBlocks, blockOff, numBits)
        decreases NUM_SIZES - numBits
      {
        AlignedIsMod(blockOff, numBits);
        if blockOff + blocks > poolBlocks || numBits >= NUM_SIZES || blockOff % blocks != 0 {
          NoEnd(bits[..], poolBlocks, blockOff, numBits);
          return NotAligned, 0;
        }
        ProbeStep(bits[..], poolBlocks, blockOff, numBits);
        if Bit(bits[..], blockOff + blocks - 1) {
          break;
        }
        DoublePow2(numBits);
        numBits := numBits + 1;
        blocks := 2 * blocks;
      }
      ret := Success;
    }

    /** `BuddyAllocSize`: reads the order of a live block off the bit map. */
    method BuddyAllocSize(p: nat) returns (ret: IOReturn, numBits: nat)
      requires Wired()
      ensures ret == Success || ret == NotAligned
      ensures ret == Success ==> PageOf(p).Some? && EndsAt(bits[..], poolBlocks, PageOf(p).value, numBits)
      ensures ret != Success ==> PageOf(p).None? || forall k: nat :: !EndsAt(bits[..], poolBlocks, PageOf(p).value, k)
    {
      hide EndsAt;
      if p < poolStart {
        return NotAligned, 0;
      }
      var byteOff := p - poolStart;
      var blockOff := byteOff / PAGE_BYTES;
      if byteOff != blockOff * PAGE_BYTES {
        return NotAligned, 0;
      }
      if blockOff >= poolBlocks {
        return NotAligned, 0;
      }
      ret, numBits := Probe(blockOff);
    }

    /** Joins the neighbours of a block on its list. None of the checks can fail if they point at it. */
    method Relink(buddy: Word, k: nat, prevOffset: Word, nextOffset: Word) returns (rc: IOReturn)
      requires Wired() && k < NUM_SIZES && (prevOffset != OURNULL && nextOffset != OURNULL ==> prevOffset != nextOffset)
      requires prevOffset != OURNULL ==>
                 && prevOffset < poolBlocks
                 && pool[PAGE_WORDS * prevOffset] == MAGIC && pool[PAGE_WORDS * prevOffset + 2] == buddy
      requires nextOffset != OURNULL ==>
                 && nextOffset < poolBlocks
                 && pool[PAGE_WORDS * nextOffset] == MAGIC && pool[PAGE_WORDS * nextOffset + 1] == buddy
      modifies pool, freeList
      ensures rc == Success
      ensures forall w: nat | w < pool.Length ::
                pool[w] == if nextOffset != OURNULL && w == PAGE_WORDS * nextOffset + 1 then prevOffset
                           else if prevOffset != OURNULL && w == PAGE_WORDS * prevOffset + 2 then nextOffset
                           else old(pool[w])
      ensures freeList[..] == if prevOffset == OURNULL then old(freeList[..])[k := nextOffset] else old(freeList[..])
    {
      if prevOffset == OURNULL {
        if nextOffset != OURNULL {
          if nextOffset >= poolBlocks {
            return InternalError;
          }
          if pool[PAGE_WORDS * nextOffset] != MAGIC {
            return InternalError;
          }
          if pool[PAGE_WORDS * nextOffset + 1] != buddy {
            return InternalError;
          }
          pool[PAGE_WORDS * nextOffset + 1] := OURNULL;
        }
        freeList[k] := nextOffset;
      } else {
        if prevOffset >= poolBlocks {
          return InternalError;
        }
        if pool[PAGE_WORDS * prevOffset] != MAGIC {
          return InternalError;
        }
        if pool[PAGE_WORDS * prevOffset + 2] != buddy {
          return InternalError;
        }
        if nextOffset != OURNULL {
          if nextOffset >= poolBlocks {
            return InternalError;
          }
          if pool[PAGE_WORDS * nextOffset] != MAGIC {
            return InternalError;
          }
          if pool[PAGE_WORDS * nextOffset + 1] != buddy {
            return InternalError;
          }
          pool[PAGE_WORDS * nextOffset + 1] := prevOffset;
        }
        pool[PAGE_WORDS * prevOffset + 2] := nextOffset;
      }
      rc := Success;
    }

    /** The part of `Free` that takes a buddy off its list and wipes its header and trailer. */
    method UnlinkBuddy(buddy: Word, k: nat) returns (rc: IOReturn, ghost i: nat)
      requires Core() && k < NUM_SIZES && buddy < |layout.owner| && layout.owner[buddy] == Owner.Free(buddy, k)
      modifies pool, freeList
      ensures rc == Success && i < |layout.lists[k]| && layout.lists[k][i] == buddy
      ensures UnlinkWrites(old(pool[..]), pool[..], layout.lists[k], i, k)
      ensures freeList[..] == HeadsWithout(old(freeList[..]), layout.lists[k], i, k)
    {
      ghost var mem := pool[..];
      hide Consistent, Pow2, Aligned, At, UnlinkWrites;
      ghost var prev, next;
      i, prev, next := NeighboursOf(pool[..], freeList[..], bits[..], layout.owner, layout.lists, buddy, k);
      pool[PAGE_WORDS * (buddy + Pow2(k)) - 1] := 0;
      if pool[PAGE_WORDS * buddy] != MAGIC {
        return InternalError, i;
      }
      if freeList[k] == OURNULL {
        return InternalError, i;
      }
      var prevOffset: Word := pool[PAGE_WORDS * buddy + 1];
      var nextOffset: Word := pool[PAGE_WORDS * buddy + 2];
      rc := Relink(buddy, k, prevOffset, nextOffset);
      if rc != Success {
        return;
      }
      pool[PAGE_WORDS * buddy] := 0;
      pool[PAGE_WORDS * buddy + 1] := 0;
      pool[PAGE_WORDS * buddy + 2] := 0;
      UnlinkWritesIntro(mem, pool[..], layout.lists[k], i, k, prev, next);
    }

    method TakeBuddy(buddy: Word, k: nat) returns (rc: IOReturn)
      requires Core() && k < NUM_SIZES && buddy < |layout.owner| && layout.owner[buddy] == Owner.Free(buddy, k)
      modifies this`layout, pool, freeList
      ensures rc == Success && Core() && SameElsewhere(old(pool[..]), pool[..], old(layout.owner))
      ensures layout.owner == Paint(old(layout.owner), buddy, Pow2(k), Loose)
      ensures FreePages(layout.owner) == FreePages(old(layout.owner)) - Pow2(k)
    {
      ghost var mem, heads, marks := pool[..], freeList[..], bits[..];
      hide Aligned, Consistent, Pow2, SameElsewhere, FreePages, UnlinkWrites, HeadsWithout;
      ghost var i;
      rc, i := UnlinkBuddy(buddy, k);
      ghost var after := Layout(Paint(layout.owner, buddy, Pow2(k), Loose), layout.lists[k := Removed(layout.lists[k], i)]);
      UnlinkLayout(mem, pool[..], heads, freeList[..], marks, layout, after, buddy, i, k);
      layout := after;
    }

    /** The merging loop of `Free`. The word that says how long the buddy's last block is can be
        trusted, the loop ends only when no further merge is possible, and it never finds corruption. */
    method MergeBuddies(ghost was: seq<Owner>, ghost o: nat, start: Word, order: nat)
      returns (rc: IOReturn, blockOff: Word, k: nat)
      requires Core() && MergedTo(was, layout.owner, o, start, order) && Tiled(was)
      modifies this`layout, pool, freeList
      ensures rc == Success && Core() && MergedTo(was, layout.owner, o, blockOff, k)
      ensures FreePages(layout.owner) + Pow2(k) == FreePages(old(layout.owner)) + Pow2(order)
      ensures k + 1 < NUM_SIZES && FlipBit(blockOff, k) + Pow2(k) <= |layout.owner| ==>
                Bit(bits[..], FlipBit(blockOff, k) + Pow2(k) - 1) || layout.owner[FlipBit(blockOff, k)] != Owner.Free(FlipBit(blockOff, k), k)
      ensures SameElsewhere(old(pool[..]), pool[..], layout.owner)
    {
      hide Consistent, Aligned, Pow2, FlipBit, Bit, MergedTo, SameElsewhere, FreePages;
      rc, blockOff, k := Success, start, order;
      SameElsewhereRefl(pool[..], layout.owner);
      MergeShape(was, layout.owner, o, start, order);
      while k < NUM_SIZES - 1
        invariant rc == Success && Core() && MergedTo(was, layout.owner, o, blockOff, k) && k < NUM_SIZES
        invariant FreePages(layout.owner) + Pow2(k) == FreePages(old(layout.owner)) + Pow2(order)
        invariant SameElsewhere(old(pool[..]), pool[..], layout.owner)
        decreases NUM_SIZES - k
      {
        var buddy := FlipBit(blockOff, k);
        var pastBuddy := buddy + Pow2(k);
        if pastBuddy > poolBlocks {
          break;
        }
        if Bit(bits[..], pastBuddy - 1) {
          break;
        }
        MergeProbe(was, pool[..], freeList[..], bits[..], layout.owner, layout.lists, o, blockOff, k);
        var trueBits := pool[PAGE_WORDS * pastBuddy - 1] - LEN_OFFSET;
        if trueBits < 0 || trueBits >= NUM_SIZES {
          return InternalError, blockOff, k;
        }
        if trueBits != k {
          break;
        }
        ghost var owner0, mem0 := layout.owner, pool[..];
        ListsFacts(pool[..], freeList[..], bits[..], layout.owner, layout.lists);
        MergeStep(was, layout.owner, o, blockOff, k);
        DoublePow2(k);
        rc := TakeBuddy(buddy, k);
        if rc != Success {
          return;
        }
        SameElsewhereMerge(old(pool[..]), mem0, pool[..], owner0, layout.owner, buddy, k);
        k := k + 1;
        if buddy < blockOff {
          blockOff := buddy;
        }
      }
    }

    /** The end of `Free`: the merged block goes to the front of its list. */
    method AddMerged(o: Word, k: nat) returns (rc: IOReturn)
      requires Core() && k < NUM_SIZES && AllAre(layout.owner, o, Pow2(k), Loose)
      modifies pool, freeList
      ensures rc == Success && PushWrites(old(pool[..]), pool[..], layout.lists[k], o, k)
      ensures freeList[..] == old(freeList[..])[k := o]
    {
      hide Consistent, Pow2;
      HeadOf(pool[..], freeList[..], bits[..], layout.owner, layout.lists, k);
      assert layout.owner[o] == Loose;
      pool[PAGE_WORDS * o] := MAGIC;
      pool[PAGE_WORDS * o + 1] := OURNULL;
      var nextOffset := freeList[k];
      if nextOffset != OURNULL {
        ListsFacts(old(pool[..]), freeList[..], bits[..], layout.owner, layout.lists);
        FirstOf(old(pool[..]), freeList[..], bits[..], layout.owner, layout.lists, k);
        FreeApartFromLoose(layout.owner, nextOffset, k, o, k);
        if nextOffset >= poolBlocks {
          return InternalError;
        }
        if pool[PAGE_WORDS * nextOffset] != MAGIC {
          return InternalError;
        }
        if pool[PAGE_WORDS * nextOffset + 1] != OURNULL {
          return InternalError;
        }
        pool[PAGE_WORDS * nextOffset + 1] := o;
      }
      pool[PAGE_WORDS * o + 2] := nextOffset;
      pool[PAGE_WORDS * (o + Pow2(k)) - 1] := k + LEN_OFFSET;
      freeList[k] := o;
      rc := Success;
    }

    /** The first part of `Free`: the block loses its bit and takes in every free buddy. */
    method MergeFreed(o: Word, order: nat) returns (ret: IOReturn, blockOff: Word, k: nat)
      requires Valid() && LiveAt(layout.owner, o) && layout.owner[o].order == order
      modifies this`layout, pool, freeList, bits
      ensures Core() && ret == Success && k < NUM_SIZES && Aligned(blockOff, k)
      ensures AllAre(layout.owner, blockOff, Pow2(k), Loose)
      ensures FreedTo(old(layout.owner), Paint(layout.owner, blockOff, Pow2(k), Owner.Free(blockOff, k)), o)
      ensures FreePages(layout.owner) + Pow2(k) == FreePages(old(layout.owner)) + Pow2(order)
      ensures SameElsewhere(old(pool[..]), pool[..], layout.owner)
    {
      ghost var was := layout;
      hide Consistent, Aligned, Pow2, FlipBit, Bit, MergedTo, SameElsewhere, FreePages, FreedTo, Tiled, BitsOk;
      LiveBlockFacts(pool[..], freeList[..], bits[..], layout, o);
      UnmarkLive(o, order);
      MergeStart(was.owner, o);
      ret, blockOff, k := MergeBuddies(was.owner, o, o, order);
      if ret != Success {
        return;
      }
      ListsFacts(pool[..], freeList[..], bits[..], layout.owner, layout.lists);
      MergeShape(was.owner, layout.owner, o, blockOff, k);
      MergeDone(was.owner, bits[..], layout.owner, o, blockOff, k);
    }

    /** `Free` once the order of the block is known. */
    method FreeLive(o: Word, order: nat) returns (ret: IOReturn)
      requires Valid() && LiveAt(layout.owner, o) && layout.owner[o].order == order
      modifies this`freeBytes, this`layout, pool, freeList, bits
      ensures Valid() && ret == Success && FreedTo(old(layout.owner), layout.owner, o)
      ensures freeBytes == old(freeBytes) + PAGE_BYTES * Pow2(order)
      ensures SameElsewhere(old(pool[..]), pool[..], layout.owner)
      ensures Coalesced(old(layout.owner)) ==> Coalesced(layout.owner)
    {
      ghost var was, mem := layout, pool[..];
      hide *;
      OwnerTiled();
      var blockOff, k;
      ret, blockOff, k := MergeFreed(o, order);
      if ret != Success {
        return;
      }
      ghost var merged, mem1 := layout, pool[..];
      ret := PutMerged(blockOff, k);
      if ret != Success {
        return;
      }
      SameElsewherePush(mem, mem1, pool[..], merged.owner, layout.owner, blockOff, k);
      FreedFacts(was.owner, layout.owner, o);
      if Coalesced(was.owner) {
        FreedKeepsCoalesced(was.owner, layout.owner, o);
      }
      freeBytes := freeBytes + PAGE_BYTES * Pow2(order);
    }

    method UnmarkLive(o: Word, order: nat)
      requires Core() && LiveAt(layout.owner, o) && layout.owner[o].order == order
      modifies this`layout, bits
      ensures Core() && layout.owner == Paint(old(layout.owner), o, Pow2(order), Loose)
      ensures FreePages(layout.owner) == FreePages(old(layout.owner))
    {
      ghost var mem, heads, marks := pool[..], freeList[..], bits[..];
      hide Consistent, Pow2, Bit, FreePages;
      LiveBlockFacts(mem, heads, marks, layout, o);
      ClearBit(bits, o + Pow2(order) - 1);
      LoosenLiveConsistent(mem, heads, marks, bits[..], layout.owner, layout.lists, o);
      layout := Layout(Paint(layout.owner, o, Pow2(order), Loose), layout.lists);
    }

    method PutMerged(o: Word, k: nat) returns (rc: IOReturn)
      requires Core() && k < NUM_SIZES && AllAre(layout.owner, o, Pow2(k), Loose) && Aligned(o, k)
      modifies this`layout, pool, freeList
      ensures rc == Success && Core() && layout.owner == Paint(old(layout.owner), o, Pow2(k), Owner.Free(o, k))
      ensures FreePages(layout.owner) == FreePages(old(layout.owner)) + Pow2(k)
      ensures SameElsewhere(old(pool[..]), pool[..], layout.owner)
    {
      ghost var mem, heads, marks := pool[..], freeList[..], bits[..];
      hide *;
      rc := AddMerged(o, k);
      if rc != Success {
        return;
      }
      PushConsistent(mem, pool[..], heads, marks, layout.owner, layout.lists, o, k);
      ghost var after := Layout(Paint(layout.owner, o, Pow2(k), Owner.Free(o, k)), Pushed(layout.lists, k, o));
      assert Consistent(pool[..], freeList[..], bits[..], after.owner, after.lists);
      layout := after;
    }

    /** What `Free` and `Realloc` may be given: a live block, null, or a pointer that is plainly not a page
        of the pool. The source cannot tell an interior or stale pointer from a live one. */
    ghost predicate Freeable(p: nat)
      reads this
    {
      p != 0 && PageOf(p).Some? ==> LiveAt(layout.owner, PageOf(p).value)
    }

    /** `Free`. Null is no block, even if the pool begins at address 0. */
    method Free(p: nat) returns (ret: IOReturn)
      requires Valid() && Freeable(p)
      modifies this`freeBytes, this`layout, pool, freeList, bits
      ensures Valid()
      ensures ret == if p == 0 || PageOf(p).Some? then Success else NotAligned
      ensures p == 0 || ret != Success ==>
                Unchanged(old(pool[..]), old(freeList[..]), old(bits[..]), old(layout), old(freeBytes))
      ensures p != 0 && ret == Success ==>
                var o := (p - poolStart) / PAGE_BYTES;
                && p == poolStart + PAGE_BYTES * o && 0 <= o < poolBlocks
                && FreedTo(old(layout.owner), layout.owner, o)
                && freeBytes == old(freeBytes) + PAGE_BYTES * Pow2(old(layout.owner)[o].order)
                && SameElsewhere(old(pool[..]), pool[..], layout.owner)
      ensures Coalesced(old(layout.owner)) ==> Coalesced(layout.owner)
    {
      hide Consistent, EndsAt, FreedTo, SameElsewhere, FreePages, Pow2, NoneLoose, Coalesced;
      if p == 0 {
        return Success;
      }
      LiveSizes(pool[..], freeList[..], bits[..], layout);
      var order;
      ret, order := BuddyAllocSize(p);
      if ret != Success {
        return;
      }
      EndsAtOnce(bits[..], poolBlocks, PageOf(p).value, order, layout.owner[PageOf(p).value].order);
      ret := FreeLive((p - poolStart) / PAGE_BYTES, order);
    }

    /** `Realloc` of a live block to a size that fits it: the end of the block is given back. */
    method Shrink(o: Word, order: nat, newOrder: nat)
      requires Valid() && LiveAt(layout.owner, o) && layout.owner[o].order == order && newOrder < order
      modifies this`freeBytes, this`layout, pool, freeList, bits
      ensures Valid() && ShrunkTo(old(layout.owner), layout.owner, o, newOrder)
      ensures freeBytes == old(freeBytes) + PAGE_BYTES * (Pow2(order) - Pow2(newOrder))
      ensures SameElsewhere(old(pool[..]), pool[..], layout.owner)
      ensures Coalesced(old(layout.owner)) ==> Coalesced(layout.owner)
    {
      ghost var was := layout.owner;
      hide Coalesced, Consistent, Pow2, Aligned, FreePages, SameElsewhere, CanonicalIn, ShrunkTo, Tiled, BitsOk, NoneLoose;
      LiveBlockFacts(pool[..], freeList[..], bits[..], layout, o);
      Pow2Monotone(newOrder, order);
      MarkShrunk(o, order, newOrder);
      ghost var mid := layout.owner;
      ghost var steps := ToFree(o + Pow2(newOrder), o + Pow2(order));
      ListsFacts(pool[..], freeList[..], bits[..], layout.owner, layout.lists);
      ShrunkWhole(was, mid, layout.owner, o, newOrder);
      if Coalesced(was) {
        ShrunkKeepsCoalesced(was, layout.owner, o, newOrder);
      }
    }

    /** Moves the bit that ends a live block from its old last page to its new one. */
    method MarkShrunk(o: nat, order: nat, newOrder: nat)
      requires Core() && LiveAt(layout.owner, o) && layout.owner[o].order == order && newOrder < order
      modifies this`layout, bits
      ensures Core()
      ensures layout.owner == Paint(Paint(old(layout.owner), o, Pow2(order), Loose), o, Pow2(newOrder), Live(o, newOrder))
      ensures FreePages(layout.owner) == FreePages(old(layout.owner))
    {
      ghost var mem, heads, marks := pool[..], freeList[..], bits[..];
      hide Consistent, Pow2, Bit, FreePages;
      LiveBlockFacts(mem, heads, marks, layout, o);
      Pow2Monotone(newOrder, order);
      SetBit(bits, o + Pow2(newOrder) - 1);
      ClearBit(bits, o + Pow2(order) - 1);
      ghost var mid := Paint(Paint(layout.owner, o, Pow2(order), Loose), o, Pow2(newOrder), Live(o, newOrder));
      ShrinkConsistent(mem, heads, marks, bits[..], layout, mid, o, newOrder);
      layout := Layout(mid, layout.lists);
    }

    /** The client may write any page that is not free; the allocator notices nothing. */
    method ClientWrite(w: nat, v: Word)
      requires Valid() && w < PAGE_WORDS * poolBlocks && !layout.owner[w / PAGE_WORDS].Free?
      modifies pool
      ensures Valid() && pool[..] == old(pool[..])[w := v]
    {
      ghost var mem := pool[..];
      hide Consistent, FreePages;
      pool[w] := v;
      ClientWritesConsistent(mem, pool[..], freeList[..], bits[..], layout);
    }

    /** `memcpy` between two live blocks. */
    method CopyPages(ghost n: nat, ghost b: nat, to: nat, from: nat, words: nat)
      requires Valid() && n + Pow2(b) <= |layout.owner| && forall p | n <= p < n + Pow2(b) :: layout.owner[p].Live?
      requires to == PAGE_WORDS * n && words <= PAGE_WORDS * Pow2(b) && from + words <= PAGE_WORDS * poolBlocks
      requires from + words <= to || to + words <= from
      modifies pool
      ensures Valid()
      ensures Copied(old(pool[..]), pool[..], to, from, words)
    {
      ghost var mem := pool[..];
      hide Consistent, FreePages, Pow2;
      forall i | 0 <= i < words {
        pool[to + i] := pool[from + i];
      }
      ClientWritesConsistent(mem, pool[..], freeList[..], bits[..], layout);
    }

    /** The second half of the growing `Realloc`: copy into the new block, then free the old one. */
    method MoveInto(o: Word, order: nat, n: nat, ghost b: nat) returns (rc: IOReturn)
      requires Valid() && LiveAt(layout.owner, o) && layout.owner[o].order == order
      requires AllAre(layout.owner, n, Pow2(b), Live(n, b)) && n != o && Pow2(order) <= Pow2(b)
      modifies this`freeBytes, this`layout, pool, freeList, bits
      ensures Valid() && rc == Success && FreedTo(old(layout.owner), layout.owner, o)
      ensures Moved(old(pool[..]), pool[..], layout.owner, o, order, n, b)
      ensures freeBytes == old(freeBytes) + PAGE_BYTES * Pow2(order)
      ensures Coalesced(old(layout.owner)) ==> Coalesced(layout.owner)
    {
      ghost var mid, mem1 := layout, pool[..];
      hide Coalesced, Consistent, Pow2, SameElsewhere, FreePages, FreedTo, Moved, NoneLoose, Tiled, BitsOk, AllAre, Copied;
      LiveBlockFacts(pool[..], freeList[..], bits[..], layout, o);
      LiveBlocksApart(layout.owner, o, order, n, b);
      CopyPages(n, b, PAGE_WORDS * n, PAGE_WORDS * o, PAGE_WORDS * Pow2(order));
      ghost var mem2 := pool[..];
      rc := FreeLive(o, order);
      CopyThenFree(mem1, mem2, pool[..], mid.owner, layout.owner, o, order, n, b);
    }

    /** What the growing `Realloc` does once it has the new block at `n`. */
    method Replace(o: Word, order: nat, n: nat, size: nat, ghost was: Layout, ghost mem: seq<Word>) returns (rc: IOReturn)
      requires Valid() && Tiled(was.owner) && NoneLoose(was.owner) && LiveAt(was.owner, o) && was.owner[o].order == order
      requires PAGE_BYTES * Pow2(order) < size && Allocated(was.owner, layout.owner, n, OrderFor(size))
      requires SameElsewhere(mem, pool[..], was.owner)
      modifies this`freeBytes, this`layout, pool, freeList, bits
      ensures Valid() && rc == Success && MovedTo(was.owner, layout.owner, o, n, OrderFor(size))
      ensures Moved(mem, pool[..], layout.owner, o, order, n, OrderFor(size))
      ensures freeBytes == old(freeBytes) + PAGE_BYTES * Pow2(order)
      ensures Coalesced(old(layout.owner)) ==> Coalesced(layout.owner)
    {
      ghost var b, mid, mem1 := OrderFor(size), layout, pool[..];
      hide *;
      GrowFacts(was.owner, mid.owner, n, b, o, order, size);
      OwnerTiled();
      rc := MoveInto(o, order, n, b);
      AllocateThenMove(mem, mem1, pool[..], was.owner, mid.owner, layout.owner, o, order, n, b);
    }

    lemma OwnerTiled()
      requires Valid()
      ensures Tiled(layout.owner) && NoneLoose(layout.owner)
    {
    }

    /** `Realloc` of a live block to a size that does not fit it: a new block, a copy, and a free. */
    method Grow(o: Word, order: nat, size: nat, cell: nat) returns (rc: IOReturn, newPtr: nat, ghost n: nat)
      requires Valid() && LiveAt(layout.owner, o) && layout.owner[o].order == order
      requires PAGE_BYTES * Pow2(order) < size
      modifies this`freeBytes, this`layout, pool, freeList, bits
      ensures Valid()
      ensures rc == Success <==> SomeBlock(old(layout.owner), OrderFor(size))
      ensures rc != Success ==>
                && rc == (if OrderFor(size) > NUM_SIZES then NoResources else NoMemory) && newPtr == cell
                && Unchanged(old(pool[..]), old(freeList[..]), old(bits[..]), old(layout), old(freeBytes))
      ensures rc == Success ==>
                && newPtr == poolStart + PAGE_BYTES * n
                && MovedTo(old(layout.owner), layout.owner, o, n, OrderFor(size))
                && Moved(old(pool[..]), pool[..], layout.owner, o, order, n, OrderFor(size))
                && newPtr + PAGE_BYTES * Pow2(OrderFor(size)) <= poolStart + PAGE_BYTES * poolBlocks
                && freeBytes == old(freeBytes) - PAGE_BYTES * Pow2(OrderFor(size)) + PAGE_BYTES * Pow2(order)
      ensures Coalesced(old(layout.owner)) ==> Coalesced(layout.owner)
    {
      ghost var was, mem := layout, pool[..];
      hide *;
      OwnerTiled();
      n := 0;
      rc, newPtr := Malloc(size, cell);
      if rc != Success {
        return;
      }
      n := (newPtr - poolStart) / PAGE_BYTES;
      rc := Replace(o, order, (newPtr - poolStart) / PAGE_BYTES, size, was, mem);
    }

    /** `Realloc`. The source would free the new block again if freeing the old one failed; it cannot. */
    method Realloc(p: nat, size: nat, cell: nat) returns (rc: IOReturn, newPtr: nat)
      requires Valid() && Freeable(p)
      modifies this`freeBytes, this`layout, pool, freeList, bits
      ensures Valid() && (Coalesced(old(layout.owner)) ==> Coalesced(layout.owner))
      ensures size == 0 || rc != Success ==> newPtr == cell
      ensures rc == NotAligned <==> p != 0 && PageOf(p).None?
      ensures rc != Success && rc != NotAligned ==> rc == if OrderFor(size) > NUM_SIZES then NoResources else NoMemory
      ensures rc != Success || (p == 0 && size == 0) ==>
                Unchanged(old(pool[..]), old(freeList[..]), old(bits[..]), old(layout), old(freeBytes))
      ensures p == 0 ==> (rc == Success <==> size == 0 || SomeBlock(old(layout.owner), OrderFor(size)))
      ensures p == 0 && size > 0 && rc == Success ==>
                && newPtr >= poolStart && (newPtr - poolStart) % PAGE_BYTES == 0
                && Allocated(old(layout.owner), layout.owner, (newPtr - poolStart) / PAGE_BYTES, OrderFor(size))
                && newPtr + PAGE_BYTES * Pow2(OrderFor(size)) <= poolStart + PAGE_BYTES * poolBlocks
                && SameElsewhere(old(pool[..]), pool[..], old(layout.owner))
      ensures p != 0 && PageOf(p).Some? ==>
                var o := (p - poolStart) / PAGE_BYTES;
                var k, j := old(layout.owner)[o].order, OrderFor(size);
                if size == 0 then
                  && rc == Success && FreedTo(old(layout.owner), layout.owner, o)
                  && SameElsewhere(old(pool[..]), pool[..], layout.owner)
                else if j > k then
                  && (rc == Success <==> SomeBlock(old(layout.owner), j))
                  && (rc == Success ==>
                        && newPtr >= poolStart && (newPtr - poolStart) % PAGE_BYTES == 0
                        && MovedTo(old(layout.owner), layout.owner, o, (newPtr - poolStart) / PAGE_BYTES, j)
                        && Moved(old(pool[..]), pool[..], layout.owner, o, k, (newPtr - poolStart) / PAGE_BYTES, j)
                        && newPtr + PAGE_BYTES * Pow2(j) <= poolStart + PAGE_BYTES * poolBlocks)
                else
                  && rc == Success && newPtr == p
                  && (if j == k then layout == old(layout) else ShrunkTo(old(layout.owner), layout.owner, o, j))
                  && SameElsewhere(old(pool[..]), pool[..], layout.owner)
    {
      hide Consistent, Pow2, SameElsewhere, FreePages, Coalesced, Allocated, FreedTo, SomeBlock, Placeable, OrderFor, Moved,
        EndsAt, MovedTo;
      newPtr := cell;
      if size == 0 {
        rc := Free(p);
        return;
      }
      if p == 0 {
        rc, newPtr := Malloc(size, cell);
        return;
      }
      LiveSizes(pool[..], freeList[..], bits[..], layout);
      var order;
      rc, order := BuddyAllocSize(p);
      if rc != Success {
        return;
      }
      ghost var o := PageOf(p).value;
      EndsAtOnce(bits[..], poolBlocks, o, order, layout.owner[o].order);
      OrderForFits(size, order);
      if PAGE_BYTES * Pow2(order) < size {
        ghost var n;
        rc, newPtr, n := Grow((p - poolStart) / PAGE_BYTES, order, size, cell);
        assert rc == Success ==> n == (newPtr - poolStart) / PAGE_BYTES;
        return;
      }
      newPtr := p;
      var can := SmallestFit(size, order);
      if can >= order {
        SameElsewhereRefl(pool[..], layout.owner);
        return;
      }
      Shrink((p - poolStart) / PAGE_BYTES, order, can);
    }

    /** The loop of `Realloc` that finds the order a size needs, given one that is large enough. */
    method SmallestFit(size: nat, order: nat) returns (can: nat)
      requires OrderFor(size) <= order
      ensures can == OrderFor(size)
    {
      hide Pow2;
      can := 0;
      OrderForFits(size, 0);
      while PAGE_BYTES * Pow2(can) < size
        invariant can <= OrderFor(size)
        invariant PAGE_BYTES * Pow2(can) < size <==> can < OrderFor(size)
        decreases OrderFor(size) - can
      {
        can := can + 1;
        OrderForFits(size, can);
      }
    }

    /** What the caller of `Release` owes: a range that has not been released before, unless the bit map
        gives it away (`testAll` does not look at the last byte it scans). */
    ghost predicate Releasable(first: nat, past: nat)
      requires past <= |layout.owner|
      reads this
    {
      (exists p: nat :: TestedClear(layout.owner, first, past, p)) || forall p | first <= p < past :: layout.owner[p].Unreleased?
    }

    /** `Release`: adds a range of the pool to the free storage. */
    method Release(startOffset: nat, endOffset: nat) returns (ret: IOReturn)
      requires Valid()
      requires endOffset / PAGE_BYTES <= |layout.owner| ==> Releasable(startOffset / PAGE_BYTES, endOffset / PAGE_BYTES)
      modifies this`freeBytes, this`layout, pool, freeList, bits
      ensures Valid()
      ensures ret == BadArgument <==>
                startOffset % PAGE_BYTES != 0 || endOffset % PAGE_BYTES != 0
                || startOffset / PAGE_BYTES >= poolBlocks || endOffset / PAGE_BYTES > poolBlocks
      ensures ret == Success || ret == BadArgument || ret == BadMedia
      ensures ret == BadMedia ==>
                endOffset / PAGE_BYTES <= |old(layout.owner)|
                && exists p: nat :: TestedClear(old(layout.owner), startOffset / PAGE_BYTES, endOffset / PAGE_BYTES, p)
      ensures ret != Success ==>
                Unchanged(old(pool[..]), old(freeList[..]), old(bits[..]), old(layout), old(freeBytes))
      ensures ret == Success ==>
                && ReleasedTo(old(layout.owner), layout.owner, startOffset / PAGE_BYTES, endOffset / PAGE_BYTES)
                && (Coalesced(layout.owner) <==>
                      && Coalesced(old(layout.owner))
                      && SeamsClean(old(layout.owner), startOffset / PAGE_BYTES, endOffset / PAGE_BYTES))
                && freeBytes == old(freeBytes) + (if startOffset <= endOffset then endOffset - startOffset else 0)
                && SameElsewhere(old(pool[..]), pool[..], layout.owner)
    {
      hide Consistent, Bit, FreePages, Unseen, NoneLoose, ReleasedTo, SameElsewhere, CanonicalIn, Coalesced, SeamsClean;
      if startOffset % PAGE_BYTES != 0 {
        return BadArgument;
      }
      if endOffset % PAGE_BYTES != 0 {
        return BadArgument;
      }
      var startBlock, pastBlock := startOffset / PAGE_BYTES, endOffset / PAGE_BYTES;
      if startBlock >= poolBlocks || pastBlock > poolBlocks {
        return BadArgument;
      }
      ListsFacts(pool[..], freeList[..], bits[..], layout.owner, layout.lists);
      var full := TestAll(bits, startBlock, pastBlock);
      ReleaseTest(bits[..], layout.owner, startBlock, pastBlock);
      if !full {
        return BadMedia;
      }
      ReleaseRange(startBlock, pastBlock);
      ret := Success;
    }

    /** `Release` once the range is known to be unreleased. */
    method ReleaseRange(startBlock: nat, pastBlock: nat)
      requires Valid() && pastBlock <= poolBlocks
      requires forall p | startBlock <= p < pastBlock :: layout.owner[p].Unreleased?
      modifies this`freeBytes, this`layout, pool, freeList, bits
      ensures Valid() && ReleasedTo(old(layout.owner), layout.owner, startBlock, pastBlock)
      ensures Coalesced(layout.owner) <==> Coalesced(old(layout.owner)) && SeamsClean(old(layout.owner), startBlock, pastBlock)
      ensures freeBytes == old(freeBytes) + if startBlock <= pastBlock then PAGE_BYTES * (pastBlock - startBlock) else 0
      ensures SameElsewhere(old(pool[..]), pool[..], layout.owner)
    {
      ghost var was := layout.owner;
      hide Consistent, FreePages, NoneLoose, ReleasedTo, SameElsewhere, CanonicalIn, Tiled, BitsOk;
      ListsFacts(pool[..], freeList[..], bits[..], layout.owner, layout.lists);
      Unmark(startBlock, pastBlock);
      ghost var mid := layout.owner;
      ghost var steps := ToFree(startBlock, pastBlock);
      ListsFacts(pool[..], freeList[..], bits[..], layout.owner, layout.lists);
      ReleasedWhole(was, mid, layout.owner, startBlock, pastBlock);
      hide Coalesced, SeamsClean;
      ReleaseCoalesced(was, layout.owner, startBlock, pastBlock);
    }

    /** The bits of a range that is released are cleared. */
    method Unmark(startBlock: nat, pastBlock: nat)
      requires Core() && pastBlock <= poolBlocks
      requires forall p | startBlock <= p < pastBlock :: layout.owner[p].Unreleased?
      modifies this`layout, bits
      ensures Core()
      ensures layout.owner == Paint(old(layout.owner), startBlock, if startBlock <= pastBlock then pastBlock - startBlock else 0, Loose)
      ensures FreePages(layout.owner) == FreePages(old(layout.owner))
      ensures startBlock <= pastBlock ==> FreePages(layout.owner) + (pastBlock - startBlock) <= |layout.owner|
    {
      ghost var mem, heads, marks := pool[..], freeList[..], bits[..];
      ghost var n := if startBlock <= pastBlock then pastBlock - startBlock else 0;
      hide Consistent, FreePages, Bit;
      ClearAll(bits, startBlock, pastBlock);
      ReleaseConsistent(mem, heads, marks, bits[..], layout, if n > 0 then startBlock else 0, n);
      layout := Layout(Paint(layout.owner, if n > 0 then startBlock else 0, n, Loose), layout.lists);
    }
  }
}
