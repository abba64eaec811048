/** Whole histories of the allocator: what holds after any number of calls, in any order. */
module BuddyRuns {
  import opened Returns
  import opened Words
  import opened PowersOfTwo
  import opened BuddyModel
  import opened Coalescing
  import opened BuddySpec
  import opened BuddyRelease
  import opened BuddyPromise
  import opened BuddyAllocator
  import opened BuddyHeap

  /** One successful call, or something that leaves the page owners alone: a failed call, `Check`,
      `Rebase`, or a client that writes into its blocks. */
  datatype Step =
    | Malloc(block: nat, order: nat)
    | Free(block: nat)
    | Shrink(block: nat, order: nat)
    | Grow(block: nat, to: nat, order: nat)
    | Release(first: nat, past: nat)
    | Other

  /** What the methods of `VMsvga2Allocator` promise about each call. */
  ghost predicate Takes(s: Step, was: seq<Owner>, now: seq<Owner>) {
    && Tiled(was) && NoneLoose(was) && Tiled(now) && NoneLoose(now)
    && match s
       case Malloc(o, b) => Allocated(was, now, o, b)
       case Free(o) => FreedTo(was, now, o)
       case Shrink(o, b) => ShrunkTo(was, now, o, b)
       case Grow(o, n, b) => MovedTo(was, now, o, n, b)
       case Release(first, past) => ReleasedTo(was, now, first, past)
       case Other => now == was
  }

  /** A sequence of calls: the page owners before the first one and after every one. */
  ghost predicate Calls(states: seq<seq<Owner>>, steps: seq<Step>) {
    |states| == |steps| + 1 && forall i: nat | i < |steps| :: Takes(steps[i], states[i], states[i + 1])
  }

  /** A history: a sequence of calls that begins as `Init` leaves the pool. */
  ghost predicate Run(states: seq<seq<Owner>>, steps: seq<Step>) {
    Calls(states, steps) && forall p | 0 <= p < |states[0]| :: states[0][p] == Unreleased
  }

  ghost predicate CleanRelease(s: Step, was: seq<Owner>) {
    s.Release? ==> SeamsClean(was, s.first, s.past)
  }

  /** No range was released next to a free buddy of one of its blocks. */
  ghost predicate CleanReleases(states: seq<seq<Owner>>, steps: seq<Step>)
    requires |states| == |steps| + 1
  {
    forall i: nat | i < |steps| :: CleanRelease(steps[i], states[i])
  }

  lemma UnreleasedIsCoalesced(owner: seq<Owner>)
    requires forall p | 0 <= p < |owner| :: owner[p] == Unreleased
    ensures Tiled(owner) && Coalesced(owner)
  {
    hide Pow2, Aligned, FlipBit;
    forall p: nat | p < |owner|
      ensures BlockAt(owner, p) && NoFreeBuddy(owner, p)
    {
    }
  }

  /** No call but an unclean release can leave two free buddies apart; and that one always does. */
  lemma StepKeepsCoalesced(s: Step, was: seq<Owner>, now: seq<Owner>)
    requires Takes(s, was, now)
    ensures Coalesced(was) && CleanRelease(s, was) ==> Coalesced(now)
    ensures s.Release? ==> (Coalesced(now) <==> Coalesced(was) && SeamsClean(was, s.first, s.past))
  {
    hide Tiled, NoneLoose, Coalesced, Allocated, FreedTo, ShrunkTo, MovedTo, ReleasedTo, SeamsClean;
    if s.Release? {
      ReleaseCoalesced(was, now, s.first, s.past);
    } else if Coalesced(was) {
      match s
      case Malloc(o, b) => AllocatedKeepsCoalesced(was, now, o, b);
      case Free(o) => FreedKeepsCoalesced(was, now, o);
      case Shrink(o, b) => ShrunkKeepsCoalesced(was, now, o, b);
      case Grow(o, n, b) => MovedKeepsCoalesced(was, now, o, n, b);
      case Other =>
    }
  }

  lemma {:induction false} CallsKeepCoalesced(states: seq<seq<Owner>>, steps: seq<Step>, i: nat)
    requires Calls(states, steps) && CleanReleases(states, steps) && i < |states|
    requires Tiled(states[0]) && Coalesced(states[0])
    ensures Tiled(states[i]) && Coalesced(states[i])
  {
    hide Tiled, Coalesced, Takes, CleanRelease;
    if i > 0 {
      CallsKeepCoalesced(states, steps, i - 1);
      assert Takes(steps[i - 1], states[i - 1], states[i]) && CleanRelease(steps[i - 1], states[i - 1]);
      StepKeepsCoalesced(steps[i - 1], states[i - 1], states[i]);
      assert Tiled(states[i]) by { TakesTiled(steps[i - 1], states[i - 1], states[i]); }
    }
  }

  lemma RunStaysCoalesced(states: seq<seq<Owner>>, steps: seq<Step>, i: nat)
    requires Run(states, steps) && CleanReleases(states, steps) && i < |states|
    ensures Tiled(states[i]) && Coalesced(states[i])
  {
    hide Tiled, Coalesced;
    UnreleasedIsCoalesced(states[0]);
    CallsKeepCoalesced(states, steps, i);
  }

  lemma TakesTiled(s: Step, was: seq<Owner>, now: seq<Owner>)
    requires Takes(s, was, now)
    ensures Tiled(was) && NoneLoose(was) && Tiled(now) && NoneLoose(now)
  {
  }

  /** The promise of the header, for every history: a block of order `b` can be had exactly if 2^b aligned
      pages are free. */
  lemma FailureIsFinalInEveryRun(states: seq<seq<Owner>>, steps: seq<Step>, i: nat, b: nat)
    requires Run(states, steps) && CleanReleases(states, steps) && i < |states| && b < NUM_SIZES
    ensures SomeBlock(states[i], b) <==> Placeable(states[i], b)
  {
    RunStaysCoalesced(states, steps, i);
    hide Run, CleanReleases, Tiled, Coalesced, SomeBlock, Placeable;
    CoalescedIsPromised(states[i]);
    assert Promise(states[i], b);
  }

  // ----- exactly when the promise is kept for good -----

  /** These calls begin at `owner` and release nothing uncleanly. */
  ghost predicate From(owner: seq<Owner>, states: seq<seq<Owner>>, steps: seq<Step>) {
    Calls(states, steps) && states[0] == owner && CleanReleases(states, steps)
  }

  ghost predicate KeepsPromise(owner: seq<Owner>, states: seq<seq<Owner>>, steps: seq<Step>) {
    From(owner, states, steps) ==> Promised(states[|steps|])
  }

  /** The promise survives every further sequence of calls with clean releases if and only if the free
      blocks are coalesced. */
  lemma PromiseForever(owner: seq<Owner>)
    requires Tiled(owner) && NoneLoose(owner)
    ensures Coalesced(owner) <==> forall states, steps :: KeepsPromise(owner, states, steps)
  {
    hide Tiled, NoneLoose, Coalesced, Calls, CleanReleases, Promised, FreePair;
    if Coalesced(owner) {
      forall states, steps
        ensures KeepsPromise(owner, states, steps)
      {
        if From(owner, states, steps) {
          CallsLength(states, steps);
          CallsKeepCoalesced(states, steps, |steps|);
          CoalescedIsPromised(states[|steps|]);
        }
      }
    } else {
      var s, k := UncoalescedPair(owner);
      var states, steps := BreakingCalls(owner, s, k);
      assert !KeepsPromise(owner, states, steps);
    }
  }

  lemma CallsLength(states: seq<seq<Owner>>, steps: seq<Step>)
    requires Calls(states, steps)
    ensures |states| == |steps| + 1
  {
  }

  /** From two free buddies that stand apart, allocations of twice their size end with a broken promise. */
  lemma {:induction false} BreakingCalls(owner: seq<Owner>, s: nat, k: nat)
    returns (states: seq<seq<Owner>>, steps: seq<Step>)
    requires Tiled(owner) && NoneLoose(owner) && FreePair(owner, s, k)
    ensures From(owner, states, steps) && !Promised(states[|steps|])
    decreases FreePages(owner)
  {
    if !SomeBlock(owner, k + 1) {
      PairBreaksPromise(owner, s, k);
      states, steps := [owner], [];
    } else {
      hide Tiled, NoneLoose, FreePair, Promised, FreePages, SomeBlock, Allocated;
      var now, o := AllocationExists(owner, k + 1);
      PairStays(owner, now, o, s, k);
      AllocationTakesPages(owner, now, o, k + 1);
      var rest, more := BreakingCalls(now, s, k);
      states, steps := [owner] + rest, [Malloc(o, k + 1)] + more;
      CallsPrefixed(Malloc(o, k + 1), owner, rest, more);
    }
  }

  lemma CallsPrefixed(s: Step, owner: seq<Owner>, states: seq<seq<Owner>>, steps: seq<Step>)
    requires Calls(states, steps) && CleanReleases(states, steps) && Takes(s, owner, states[0]) && !s.Release?
    ensures Calls([owner] + states, [s] + steps) && CleanReleases([owner] + states, [s] + steps)
  {
    hide Takes, SeamsClean;
    var states', steps' := [owner] + states, [s] + steps;
    forall i: nat | i < |steps'|
      ensures Takes(steps'[i], states'[i], states'[i + 1]) && CleanRelease(steps'[i], states'[i])
    {
      if i > 0 {
        assert Takes(steps[i - 1], states[i - 1], states[i]) && CleanRelease(steps[i - 1], states[i - 1]);
      }
    }
  }

  /** Two histories that end with the same pages free end with the same free blocks, however they got
      there; so if the same blocks are live, every page has the same owner. */
  lemma HistoryDoesNotMatter(states: seq<seq<Owner>>, steps: seq<Step>, states': seq<seq<Owner>>, steps': seq<Step>)
    requires Run(states, steps) && CleanReleases(states, steps) && Run(states', steps') && CleanReleases(states', steps')
    requires var now, now' := states[|steps|], states'[|steps'|];
             |now| == |now'| && forall p | 0 <= p < |now| :: (!now[p].Free? || !now'[p].Free? ==> now[p] == now'[p])
    ensures states[|steps|] == states'[|steps'|]
  {
    var now, now' := states[|steps|], states'[|steps'|];
    RunStaysCoalesced(states, steps, |steps|);
    RunStaysCoalesced(states', steps', |steps'|);
    hide Run, CleanReleases, Tiled, Coalesced;
    forall p | 0 <= p < |now|
      ensures now[p] == now'[p]
    {
      if now[p].Free? && now'[p].Free? {
        CanonicalBlocks(now, now', p);
      }
    }
  }

  // ----- no page and no block is lost -----

  ghost predicate Covers(s: Step, p: nat) {
    s.Release? && s.first <= p < s.past
  }

  /** The call is about the block at `o`. */
  predicate Names(s: Step, o: nat) {
    (s.Free? || s.Shrink? || s.Grow?) && s.block == o
  }

  /** One call releases exactly the pages it names and leaves every live block it does not name alone. */
  lemma StepFrame(s: Step, was: seq<Owner>, now: seq<Owner>, p: nat)
    requires Takes(s, was, now) && p < |was|
    ensures |now| == |was| && (now[p].Unreleased? <==> was[p].Unreleased? && !Covers(s, p))
    ensures was[p].Live? && !Names(s, was[p].start) ==> now[p] == was[p]
  {
    hide Tiled, NoneLoose, Allocated, FreedTo, ShrunkTo, MovedTo, ReleasedTo;
    match s
    case Malloc(o, b) => AllocatedPage(was, now, o, b, p);
    case Free(o) => FreedPage(was, now, o, p);
    case Shrink(o, b) => ShrunkPage(was, now, o, b, p);
    case Grow(o, n, b) => MovedPage(was, now, o, n, b, p);
    case Release(first, past) => ReleasedPage(was, now, first, past, p);
    case Other =>
  }

  /** At any time a page has been released exactly if some call so far released it; then it is free or in
      a live block, and no page is ever lost or given back twice. */
  lemma {:induction false} PagesAccountedFor(states: seq<seq<Owner>>, steps: seq<Step>, i: nat, p: nat)
    requires Run(states, steps) && i < |states| && p < |states[0]|
    ensures |states[i]| == |states[0]| && states[i][p] != Loose
    ensures states[i][p].Unreleased? <==> !exists j: nat :: j < i && Covers(steps[j], p)
  {
    hide Takes, Covers;
    if i > 0 {
      PagesAccountedFor(states, steps, i - 1, p);
      assert Takes(steps[i - 1], states[i - 1], states[i]);
      StepFrame(steps[i - 1], states[i - 1], states[i], p);
      TakesTiled(steps[i - 1], states[i - 1], states[i]);
      assert states[i][p] != Loose;
      if Covers(steps[i - 1], p) {
        assert i - 1 < i;
      }
    }
  }

  /** A live block keeps its pages until a call names it: no other call, and no number of them, can
      move, shrink, free or hand out any of them. */
  lemma {:induction false} LiveBlockStays(states: seq<seq<Owner>>, steps: seq<Step>, i: nat, j: nat, p: nat)
    requires Run(states, steps) && i <= j < |states| && p < |states[i]| && states[i][p].Live?
    requires forall t: nat | i <= t < j :: !Names(steps[t], states[i][p].start)
    ensures p < |states[j]| && states[j][p] == states[i][p]
    decreases j
  {
    hide Takes, Names;
    if i < j {
      LiveBlockStays(states, steps, i, j - 1, p);
      assert Takes(steps[j - 1], states[j - 1], states[j]);
      StepFrame(steps[j - 1], states[j - 1], states[j], p);
    }
  }

  /** Two blocks that are live at the same time share no page. */
  lemma LiveBlocksDisjoint(states: seq<seq<Owner>>, steps: seq<Step>, i: nat, o: nat, n: nat)
    requires Run(states, steps) && 0 < i < |states| && o < n && LiveAt(states[i], o) && LiveAt(states[i], n)
    ensures o + Pow2(states[i][o].order) <= n
  {
    assert Takes(steps[i - 1], states[i - 1], states[i]);
    TakesTiled(steps[i - 1], states[i - 1], states[i]);
    hide Run, Pow2, Aligned, Takes;
    assert BlockAt(states[i], o) && BlockAt(states[i], n);
  }

  // ----- the allocator's own histories are runs -----

  lemma RunExtended(states: seq<seq<Owner>>, steps: seq<Step>, s: Step, now: seq<Owner>)
    requires Run(states, steps) && Takes(s, states[|steps|], now)
    ensures Run(states + [now], steps + [s])
  {
    hide Takes;
    var states', steps' := states + [now], steps + [s];
    forall i: nat | i < |steps'|
      ensures Takes(steps'[i], states'[i], states'[i + 1])
    {
      if i < |steps| {
        assert Takes(steps[i], states[i], states[i + 1]);
      }
    }
  }

  /** Which of the steps a successful `Realloc` of the block at `o` was, if its result is at `n`. */
  ghost function ReallocStep(o: Option<nat>, n: Option<nat>, size: nat, was: seq<Owner>): Step {
    match o
    case None => if size > 0 && n.Some? then Malloc(n.value, OrderFor(size)) else Other
    case Some(o) =>
      if size == 0 then Step.Free(o)
      else if o < |was| && LiveAt(was, o) && OrderFor(size) > was[o].order && n.Some? then Grow(o, n.value, OrderFor(size))
      else if o < |was| && LiveAt(was, o) && OrderFor(size) < was[o].order then Shrink(o, OrderFor(size))
      else Other
  }

  lemma ReallocTakes(was: seq<Owner>, owner: seq<Owner>, o: nat, n: nat, size: nat, mem: seq<Word>, mem': seq<Word>)
    requires Tiled(was) && NoneLoose(was) && Tiled(owner) && NoneLoose(owner)
    requires ReallocEffect(was, owner, o, n, size, mem, mem')
    ensures size > 0 ==> Takes(ReallocStep(Some(o), Some(n), size, was), was, owner)
    ensures size == 0 ==> forall r :: Takes(ReallocStep(Some(o), r, size, was), was, owner)
  {
    hide Tiled, NoneLoose, FreedTo, ShrunkTo, MovedTo, Moved, SameElsewhere, OrderFor;
  }

  lemma DoubledOrder(k: nat)
    ensures OrderFor(PAGE_BYTES * Pow2(k + 1)) == k + 1
  {
    OrderForFits(PAGE_BYTES * Pow2(k + 1), k + 1);
    OrderForFits(PAGE_BYTES * Pow2(k + 1), k);
  }

  lemma StillPaired(step: Step, was: seq<Owner>, now: seq<Owner>, s: nat, k: nat)
    requires Takes(step, was, now) && step.Malloc? && step.order == k + 1 && FreePair(was, s, k)
    ensures FreePair(now, s, k) && FreePages(now) < FreePages(was)
  {
    hide Allocated, FreePair, Tiled, NoneLoose, FreePages;
    PairStays(was, now, step.block, s, k);
    AllocationTakesPages(was, now, step.block, k + 1);
  }

  lemma SameOwner(step: Step, was: seq<Owner>, now: seq<Owner>)
    requires Takes(step, was, now) && step == Other
    ensures now == was
  {
  }

  /** An allocator together with everything that was done to it, and the pointers that its clients hold. */
  class Session {
    const allocator: VMsvga2Allocator
    ghost var states: seq<seq<Owner>>
    ghost var steps: seq<Step>
    ghost var held: Held

    ghost predicate Valid()
      reads this, allocator, allocator.pool, allocator.freeList, allocator.bits
    {
      && Run(states, steps) && states[|steps|] == allocator.layout.owner
      && Serving(held)
    }

    ghost predicate Serving(held: Held)
      reads allocator, allocator.pool, allocator.freeList, allocator.bits
    {
      allocator.Valid() && HeldOk(held, allocator.layout.owner, allocator.poolStart)
    }

    constructor (a: VMsvga2Allocator)
      requires a.Valid() && forall p | 0 <= p < |a.layout.owner| :: a.layout.owner[p] == Unreleased
      ensures Valid() && allocator == a && steps == [] && held == map[]
    {
      allocator := a;
      states, steps, held := [a.layout.owner], [], map[];
    }

    /** In every state: what clients hold lies in the pool, and no two of them share a byte. */
    lemma NoOverlap()
      requires Valid()
      ensures forall p | p in held ::
                allocator.poolStart <= p && p + held[p] <= allocator.poolStart + 4096 * allocator.poolBlocks
      ensures forall p, q | p in held && q in held && p < q :: p + held[p] <= q
    {
      ValidFacts();
      hide VMsvga2Allocator.Valid, Run, HeldOk, Tiled;
      forall p, q | p in held && q in held
        ensures allocator.poolStart <= p && p + held[p] <= allocator.poolStart + 4096 * allocator.poolBlocks
        ensures p < q ==> p + held[p] <= q
      {
        HeldApart(held, allocator.layout.owner, allocator.poolStart, p, q);
      }
    }

    /** Clients give back what they hold, null, or a pointer that is plainly not a page of the pool. */
    predicate Returnable(p: nat, held: Held)
      reads allocator
    {
      p == 0 || p in held || allocator.PageOf(p).None?
    }

    ghost predicate Allowed(r: Request)
      reads this, allocator
    {
      match r
      case AskMalloc(_) => true
      case AskFree(p) => Returnable(p, held)
      case AskRealloc(p, _) => Returnable(p, held)
      case AskRelease(from, to) =>
        to / PAGE_BYTES <= |allocator.layout.owner| ==> allocator.Releasable(from / PAGE_BYTES, to / PAGE_BYTES)
    }

    /** That is all `Free` and `Realloc` ask for, and a live block is always held. */
    lemma ReturnableIsFreeable(p: nat, held: Held)
      requires Serving(held)
      ensures Returnable(p, held) <==> allocator.Freeable(p)
    {
      hide VMsvga2Allocator.Core;
      if p != 0 && allocator.PageOf(p).Some? {
        var o := allocator.PageOf(p).value;
        PoolSize();
        assert HeldAt(held, allocator.layout.owner, allocator.poolStart, o);
        assert p in held ==> Backed(allocator.layout.owner, allocator.poolStart, p, held[p]);
      }
    }

    ghost method Record(s: Step, now: Held)
      requires Serving(now) && Run(states, steps) && Takes(s, states[|steps|], allocator.layout.owner)
      modifies this
      ensures Valid() && steps == old(steps) + [s] && states == old(states) + [allocator.layout.owner] && held == now
    {
      RunExtended(states, steps, s, allocator.layout.owner);
      states, steps, held := states + [allocator.layout.owner], steps + [s], now;
    }

    lemma ValidFacts()
      requires allocator.Valid()
      ensures Tiled(allocator.layout.owner) && NoneLoose(allocator.layout.owner)
      ensures InMemory(allocator.layout.owner, allocator.pool[..]) && allocator.poolBlocks == |allocator.layout.owner|
    {
    }

    method ServeMalloc(bytes: nat, cell: nat, ghost held: Held) returns (rc: IOReturn, ptr: nat, ghost step: Step, ghost now: Held)
      requires Serving(held)
      modifies allocator`freeBytes, allocator`layout, allocator.pool, allocator.freeList, allocator.bits
      ensures Serving(now) && Takes(step, old(allocator.layout.owner), allocator.layout.owner)
      ensures rc == Success ==> ptr >= allocator.poolStart && step == Malloc((ptr - allocator.poolStart) / PAGE_BYTES, OrderFor(bytes))
      ensures rc != Success ==> step == Other
      ensures rc == Success <==> SomeBlock(old(allocator.layout.owner), OrderFor(bytes))
      ensures Served(AskMalloc(bytes), rc, ptr, held, now)
      ensures Preserved(AskMalloc(bytes), rc, ptr, held, old(allocator.pool[..]), allocator.pool[..], allocator.poolStart)
    {
      hide VMsvga2Allocator.Valid, Allocated, SameElsewhere, SomeBlock, Placeable, OrderFor, Tiled, NoneLoose, HeldOk, SameWords,
        InMemory;
      ValidFacts();
      ghost var was, mem := allocator.layout.owner, allocator.pool[..];
      rc, ptr := allocator.Malloc(bytes, cell);
      step, now := Other, held;
      if rc == Success {
        step, now := Malloc((ptr - allocator.poolStart) / PAGE_BYTES, OrderFor(bytes)), held[ptr := bytes];
        NewBlock(held, was, allocator.layout.owner, allocator.poolStart, ptr, bytes, mem, allocator.pool[..]);
      } else {
        NothingWritten(held, was, allocator.poolStart, mem);
      }
      ValidFacts();
    }

    method ServeFree(p: nat, ghost held: Held) returns (rc: IOReturn, ghost step: Step, ghost now: Held)
      requires Serving(held) && Returnable(p, held)
      modifies allocator`freeBytes, allocator`layout, allocator.pool, allocator.freeList, allocator.bits
      ensures Serving(now) && Takes(step, old(allocator.layout.owner), allocator.layout.owner)
      ensures step == if p != 0 && allocator.PageOf(p).Some? then Step.Free(allocator.PageOf(p).value) else Other
      ensures rc == if p == 0 || p in held then Success else NotAligned
      ensures Served(AskFree(p), rc, 0, held, now)
      ensures Preserved(AskFree(p), rc, 0, held, old(allocator.pool[..]), allocator.pool[..], allocator.poolStart)
    {
      hide VMsvga2Allocator.Valid, FreedTo, SameElsewhere, VMsvga2Allocator.Freeable, Tiled, NoneLoose, HeldOk, SameWords, InMemory;
      ValidFacts();
      ReturnableIsFreeable(p, held);
      if p in held {
        HeldIsPage(p, held);
      }
      ghost var was, mem := allocator.layout.owner, allocator.pool[..];
      rc := allocator.Free(p);
      step, now := Other, held;
      if p != 0 && allocator.PageOf(p).Some? {
        step, now := Step.Free(allocator.PageOf(p).value), held - {p};
        GivenUp(held, was, allocator.layout.owner, allocator.poolStart, allocator.PageOf(p).value, mem, allocator.pool[..]);
      } else {
        NothingWritten(held, was, allocator.poolStart, mem);
        assert p != 0 ==> held - {p} == held;
      }
      ValidFacts();
    }

    lemma HeldIsPage(p: nat, held: Held)
      requires Serving(held) && p in held
      ensures allocator.PageOf(p).Some? && LiveAt(allocator.layout.owner, allocator.PageOf(p).value)
    {
      PoolSize();
      hide VMsvga2Allocator.Valid;
      assert Backed(allocator.layout.owner, allocator.poolStart, p, held[p]);
    }

    method CallRealloc(p: nat, size: nat, cell: nat) returns (rc: IOReturn, ptr: nat)
      requires allocator.Valid() && allocator.Freeable(p)
      modifies allocator`freeBytes, allocator`layout, allocator.pool, allocator.freeList, allocator.bits
      ensures allocator.Valid()
      ensures rc != Success || (p == 0 && size == 0) ==>
                allocator.layout.owner == old(allocator.layout.owner) && allocator.pool[..] == old(allocator.pool[..])
      ensures rc != Success && size == 0 ==> allocator.PageOf(p).None?
      ensures rc == Success && p == 0 && size > 0 ==>
                && ptr >= allocator.poolStart && (ptr - allocator.poolStart) % PAGE_BYTES == 0
                && allocator.PageOf(ptr) == Some((ptr - allocator.poolStart) / PAGE_BYTES)
                && Allocated(old(allocator.layout.owner), allocator.layout.owner, (ptr - allocator.poolStart) / PAGE_BYTES, OrderFor(size))
                && SameElsewhere(old(allocator.pool[..]), allocator.pool[..], old(allocator.layout.owner))
      ensures rc == Success && p != 0 ==>
                && allocator.PageOf(p).Some? && (size > 0 ==> allocator.PageOf(ptr).Some?)
                && ReallocEffect(old(allocator.layout.owner), allocator.layout.owner, allocator.PageOf(p).value,
                                 if size > 0 then allocator.PageOf(ptr).value else 0, size, old(allocator.pool[..]), allocator.pool[..])
    {
      hide VMsvga2Allocator.Valid, Allocated, FreedTo, ShrunkTo, MovedTo, Moved, SameElsewhere, SomeBlock, Placeable, OrderFor,
        Coalesced;
      rc, ptr := allocator.Realloc(p, size, cell);
    }

    method ServeRealloc(p: nat, size: nat, cell: nat, ghost held: Held)
      returns (rc: IOReturn, ptr: nat, ghost step: Step, ghost now: Held)
      requires Serving(held) && Returnable(p, held)
      modifies allocator`freeBytes, allocator`layout, allocator.pool, allocator.freeList, allocator.bits
      ensures Serving(now) && Takes(step, old(allocator.layout.owner), allocator.layout.owner)
      ensures rc == Success ==>
                step == ReallocStep(if p == 0 then None else allocator.PageOf(p), allocator.PageOf(ptr), size, old(allocator.layout.owner))
      ensures rc != Success ==> step == Other
      ensures Served(AskRealloc(p, size), rc, ptr, held, now)
      ensures Preserved(AskRealloc(p, size), rc, ptr, held, old(allocator.pool[..]), allocator.pool[..], allocator.poolStart)
    {
      hide VMsvga2Allocator.Valid, Allocated, FreedTo, ShrunkTo, MovedTo, Moved, SameElsewhere, SomeBlock, Placeable, OrderFor,
        Tiled, NoneLoose, HeldOk, SameWords, InMemory, ReallocEffect;
      ValidFacts();
      ReturnableIsFreeable(p, held);
      ghost var was, mem, start := allocator.layout.owner, allocator.pool[..], allocator.poolStart;
      if p in held {
        HeldIsPage(p, held);
      }
      rc, ptr := CallRealloc(p, size, cell);
      step := if rc == Success then ReallocStep(if p == 0 then None else allocator.PageOf(p), allocator.PageOf(ptr), size, was) else Other;
      ghost var owner, mem' := allocator.layout.owner, allocator.pool[..];
      ValidFacts();
      if rc != Success || (p == 0 && size == 0) {
        now := held;
        NothingWritten(held, was, start, mem);
        assert p !in held ==> held - {p} == held;
      } else if p == 0 {
        now := held[ptr := size];
        NewBlock(held, was, owner, start, ptr, size, mem, mem');
      } else {
        ghost var o, n := allocator.PageOf(p).value, if size > 0 then allocator.PageOf(ptr).value else 0;
        ReallocTakes(was, owner, o, n, size, mem, mem');
        now := ReallocServed(held, was, owner, start, o, n, size, ptr, mem, mem');
      }
    }

    lemma PoolSize()
      requires allocator.Valid()
      ensures allocator.poolBlocks == |allocator.layout.owner|
    {
    }

    method ServeRelease(startOffset: nat, endOffset: nat, ghost held: Held) returns (rc: IOReturn, ghost step: Step)
      requires Serving(held)
      requires endOffset / PAGE_BYTES <= |allocator.layout.owner| ==>
                 allocator.Releasable(startOffset / PAGE_BYTES, endOffset / PAGE_BYTES)
      modifies allocator`freeBytes, allocator`layout, allocator.pool, allocator.freeList, allocator.bits
      ensures Serving(held) && Takes(step, old(allocator.layout.owner), allocator.layout.owner)
      ensures step == if rc == Success then Release(startOffset / PAGE_BYTES, endOffset / PAGE_BYTES) else Other
      ensures Preserved(AskRelease(startOffset, endOffset), rc, 0, held, old(allocator.pool[..]), allocator.pool[..],
                        allocator.poolStart)
    {
      hide VMsvga2Allocator.Valid, ReleasedTo, SameElsewhere, VMsvga2Allocator.Releasable, TestedClear, Tiled, NoneLoose, HeldOk,
        SameWords, InMemory;
      ValidFacts();
      ghost var was, mem := allocator.layout.owner, allocator.pool[..];
      rc := allocator.Release(startOffset, endOffset);
      step := Other;
      if rc == Success {
        step := Release(startOffset / PAGE_BYTES, endOffset / PAGE_BYTES);
        PoolGrew(held, was, allocator.layout.owner, allocator.poolStart, startOffset / PAGE_BYTES, endOffset / PAGE_BYTES,
                 mem, allocator.pool[..]);
      } else {
        NothingWritten(held, was, allocator.poolStart, mem);
      }
      ValidFacts();
    }

    /** Whatever is asked, the history stays a run, and clients see a heap: each call changes the pointers that
        are held as it should, and no byte behind any other pointer. */
    method Serve(r: Request, cell: nat) returns (rc: IOReturn, ptr: nat)
      requires Valid() && Allowed(r)
      modifies this, allocator`freeBytes, allocator`layout, allocator.pool, allocator.freeList, allocator.bits
      ensures Valid() && states == old(states) + [allocator.layout.owner]
      ensures Served(r, rc, ptr, old(held), held)
      ensures Preserved(r, rc, ptr, old(held), old(allocator.pool[..]), allocator.pool[..], allocator.poolStart)
      ensures r.AskMalloc? ==> (rc == Success <==> SomeBlock(old(allocator.layout.owner), OrderFor(r.bytes)))
      ensures r.AskFree? ==> rc == if r.p == 0 || r.p in old(held) then Success else NotAligned
      ensures |steps| == |old(steps)| + 1 && old(steps) <= steps
      ensures r.AskMalloc? && rc == Success ==>
                && ptr >= allocator.poolStart
                && steps[|old(steps)|] == Malloc((ptr - allocator.poolStart) / PAGE_BYTES, OrderFor(r.bytes))
      ensures r.AskFree? && r.p != 0 && rc == Success ==>
                allocator.PageOf(r.p).Some? && steps[|old(steps)|] == Step.Free(allocator.PageOf(r.p).value)
      ensures r.AskRealloc? && rc == Success ==>
                steps[|old(steps)|] ==
                ReallocStep(if r.p == 0 then None else allocator.PageOf(r.p), allocator.PageOf(ptr), r.size, old(allocator.layout.owner))
      ensures rc != Success ==> steps[|old(steps)|] == Other
      ensures r.AskRelease? && rc == Success ==>
                steps[|old(steps)|] == Release(r.startOffset / PAGE_BYTES, r.endOffset / PAGE_BYTES)
    {
      hide VMsvga2Allocator.Valid, Takes, Run, VMsvga2Allocator.Freeable, VMsvga2Allocator.Releasable, OrderFor, HeldOk, SomeBlock,
        SameWords;
      ptr := cell;
      ghost var step, now := Other, held;
      assert |states| == |steps| + 1 by { RunShape(); }
      match r {
        case AskMalloc(bytes) => rc, ptr, step, now := ServeMalloc(bytes, cell, held);
        case AskFree(p) =>
          if p in held { HeldIsPage(p, held); }
          rc, step, now := ServeFree(p, held);
        case AskRealloc(p, size) => rc, ptr, step, now := ServeRealloc(p, size, cell, held);
        case AskRelease(from, to) => rc, step := ServeRelease(from, to, held);
      }
      Record(step, now);
    }

    /** What breaks the promise once two free buddies stand apart: a client that keeps asking for blocks of
        twice their size. It ends with a refusal although such a block could be placed. */
    method AskUntilRefused(ghost s: nat, k: nat) returns (rc: IOReturn)
      requires Valid() && FreePair(allocator.layout.owner, s, k)
      modifies this, allocator`freeBytes, allocator`layout, allocator.pool, allocator.freeList, allocator.bits
      ensures Valid() && old(steps) <= steps && old(states) <= states
      ensures forall i | |old(steps)| <= i < |steps| :: steps[i].Malloc?
      ensures rc != Success && Placeable(allocator.layout.owner, k + 1) && !SomeBlock(allocator.layout.owner, k + 1)
      ensures !Promised(allocator.layout.owner)
    {
      hide VMsvga2Allocator.Valid, Takes, Run, Calls, FreePair, SomeBlock, Placeable, OrderFor, FreePages, Promised;
      DoubledOrder(k);
      rc := Success;
      while rc == Success
        invariant Valid() && FreePair(allocator.layout.owner, s, k)
        invariant old(steps) <= steps && old(states) <= states
        invariant forall i | |old(steps)| <= i < |steps| :: steps[i].Malloc?
        invariant rc != Success ==> !SomeBlock(allocator.layout.owner, k + 1)
        decreases FreePages(allocator.layout.owner), if rc == Success then 1 else 0
      {
        ghost var was := allocator.layout.owner;
        var ptr;
        ghost var step, now;
        rc, ptr, step, now := ServeMalloc(PAGE_BYTES * Pow2(k + 1), 0, held);
        if rc == Success {
          StillPaired(step, was, allocator.layout.owner, s, k);
          Record(step, now);
        } else {
          SameOwner(step, was, allocator.layout.owner);
        }
      }
      ValidFacts();
      PairIsPlaceable(allocator.layout.owner, s, k);
      PairBreaksPromise(allocator.layout.owner, s, k);
    }

    lemma RunShape()
      requires Run(states, steps)
      ensures |states| == |steps| + 1
    {
    }
  }

  // ----- setupAllocator -----

  const SVGA_FB_MAX_TRACEABLE_SIZE: nat := 0x1000000

  /** The pages from `from` on are released, the ones before are not. */
  ghost predicate ReleasedFrom(owner: seq<Owner>, from: nat) {
    forall p: nat | p < |owner| :: if p < from then owner[p] == Unreleased else owner[p].Free?
  }

  /** A release of unreleased pages that lies between multiples of the largest block. */
  lemma ReleaseBelow(was: seq<Owner>, now: seq<Owner>, first: nat, past: nat)
    requires Tiled(was) && Tiled(now) && Coalesced(was) && ReleasedTo(was, now, first, past) && first <= past
    requires ReleasedFrom(was, past) && Aligned(first, NUM_SIZES - 1) && (Aligned(past, NUM_SIZES - 1) || past >= |was|)
    ensures ReleasedFrom(now, first) && Coalesced(now)
  {
    LargestBlockSeams(was, first, past);
    ReleaseCoalesced(was, now, first, past);
    hide Tiled, Coalesced, SeamsClean, Aligned, NoneLoose;
    forall p: nat | p < |now|
      ensures if p < first then now[p] == Unreleased else now[p].Free?
    {
      if first <= p < past {
        assert MaximalAt(now, first, past, p);
      }
    }
  }

  /** One release of it. */
  method ReleasePart(a: VMsvga2Allocator, startOffset: nat, endOffset: nat) returns (rc: IOReturn)
    requires a.Valid() && Coalesced(a.layout.owner) && startOffset < endOffset
    requires startOffset % PAGE_BYTES == 0 && endOffset % PAGE_BYTES == 0
    requires var first, past := startOffset / PAGE_BYTES, endOffset / PAGE_BYTES;
             && past <= |a.layout.owner| && ReleasedFrom(a.layout.owner, past)
             && Aligned(first, NUM_SIZES - 1) && (Aligned(past, NUM_SIZES - 1) || past == |a.layout.owner|)
    modifies a`freeBytes, a`layout, a.pool, a.freeList, a.bits
    ensures a.Valid() && rc == Success && Coalesced(a.layout.owner) && |a.layout.owner| == |old(a.layout.owner)|
    ensures ReleasedFrom(a.layout.owner, startOffset / PAGE_BYTES)
  {
    hide VMsvga2Allocator.Valid, Coalesced, ReleasedTo, SameElsewhere, Aligned;
    ghost var was := a.layout.owner;
    OwnerFacts(a);
    rc := a.Release(startOffset, endOffset);
    OwnerFacts(a);
    ReleaseBelow(was, a.layout.owner, startOffset / PAGE_BYTES, endOffset / PAGE_BYTES);
  }

  lemma NobodyHolds(owner: seq<Owner>, from: nat, start: nat)
    requires ReleasedFrom(owner, from)
    ensures HeldOk(map[], owner, start)
  {
  }

  /** The last aligned run of released pages is as good as any. */
  lemma PlaceableFrom(owner: seq<Owner>, from: nat, b: nat)
    requires ReleasedFrom(owner, from)
    ensures Placeable(owner, b) <==> from + Pow2(b) <= |owner| - |owner| % Pow2(b)
  {
    var size, last := Pow2(b), AlignDown(|owner|, b);
    AlignedIsMod(last, b);
    var q := last / size;
    assert |owner| == q * size + (|owner| - last);
    ModUnique(|owner|, size, q, |owner| - last);
    hide Aligned, Pow2;
    if Placeable(owner, b) {
      var s: nat :| FreeRun(owner, s, b);
      assert owner[s].Free?;
      AlignedStep(s, b);
      if last < s + size {
        AlignedGap(last, s + size, b);
      }
    }
    if from + size <= last {
      AlignedStep(last, b);
      assert FreeRun(owner, last - size, b);
    }
  }

  lemma OwnerFacts(a: VMsvga2Allocator)
    requires a.Valid()
    ensures Tiled(a.layout.owner) && a.poolBlocks == |a.layout.owner|
  {
  }

  /** `setupAllocator`. Its two releases meet at 16 MB, a multiple of the largest block, so the promise
      of the header holds from the start. */
  method SetupAllocator(a: VMsvga2Allocator, p: nat, size: nat, vram: array<Word>, mapMemory: bool, haveFrontBuffer: bool)
    returns (rc: IOReturn)
    requires size <= 4 * vram.Length && a.freeList.Length == NUM_SIZES && vram != a.freeList
    modifies a, a.freeList, vram
    ensures rc == if p == 0 || size < PAGE_BYTES then NoMemory
                  else if p % PAGE_BYTES != 0 || size / PAGE_BYTES * PAGE_BYTES >= WORD_LIMIT then BadArgument
                  else if !mapMemory then NoMemory
                  else Success
    ensures rc == Success ==>
              && a.Valid() && Coalesced(a.layout.owner)
              && a.poolStart == p && a.pool == vram && a.poolBlocks == |a.layout.owner| == size / PAGE_BYTES
              && HeldOk(map[], a.layout.owner, a.poolStart) && fresh(a.bits) && a.freeList == old(a.freeList)
              && ReleasedFrom(a.layout.owner,
                              if haveFrontBuffer then 0
                              else if size / PAGE_BYTES > 4096 then 4096
                              else size / PAGE_BYTES)
  {
    hide VMsvga2Allocator.Valid, Coalesced, Aligned;
    SixteenMegabytes();
    var s := size / PAGE_BYTES * PAGE_BYTES;
    if p == 0 || s == 0 {
      return NoMemory;
    }
    rc := a.Init(p, s, vram, mapMemory);
    if rc != Success {
      return;
    }
    assert ReleasedFrom(a.layout.owner, |a.layout.owner|);
    NobodyHolds(a.layout.owner, |a.layout.owner|, p);
    OwnerFacts(a);
    var bytesReserve := SVGA_FB_MAX_TRACEABLE_SIZE;
    if bytesReserve < s {
      rc := ReleasePart(a, bytesReserve, s);
      if rc != Success {
        return;
      }
      NobodyHolds(a.layout.owner, bytesReserve / PAGE_BYTES, p);
      s := bytesReserve;
      bytesReserve := 0;
    }
    if haveFrontBuffer {
      rc := ReleasePart(a, 0, s);
      if rc != Success && bytesReserve == 0 {
        rc := Success;
      }
      NobodyHolds(a.layout.owner, 0, p);
    }
    OwnerFacts(a);
  }

  /** The first allocation after the set-up: exactly when there is one, and where in the mapping it lies. */
  method FirstMalloc(a: VMsvga2Allocator, p: nat, size: nat, vram: array<Word>, mapMemory: bool, haveFrontBuffer: bool, bytes: nat)
    returns (rc: IOReturn, ptr: nat)
    requires size <= 4 * vram.Length && a.freeList.Length == NUM_SIZES && vram != a.freeList
    modifies a, a.freeList, vram
    ensures rc == Success <==>
              && p != 0 && p % PAGE_BYTES == 0 && PAGE_BYTES <= size && size / PAGE_BYTES * PAGE_BYTES < WORD_LIMIT && mapMemory
              && OrderFor(bytes) < NUM_SIZES
              && var block, pages := Pow2(OrderFor(bytes)), size / PAGE_BYTES;
                 (if haveFrontBuffer then 0 else if pages > 4096 then 4096 else pages) + block <= pages - pages % block
    ensures rc == Success ==> p <= ptr && (ptr - p) % 4096 == 0 && ptr + bytes <= p + size
  {
    hide VMsvga2Allocator.Valid, Coalesced, ReleasedFrom, Placeable, SomeBlock, OrderFor, HeldOk, Pow2, SameElsewhere, Allocated;
    ptr := 0;
    rc := SetupAllocator(a, p, size, vram, mapMemory, haveFrontBuffer);
    if rc != Success {
      return;
    }
    var pages := size / PAGE_BYTES;
    PlaceableFrom(a.layout.owner, if haveFrontBuffer then 0 else if pages > 4096 then 4096 else pages, OrderFor(bytes));
    rc, ptr := a.Malloc(bytes, 0);
  }
}
