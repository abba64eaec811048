/** Transfer buffers: how a buffer's memory, its GMR id and the device's definition of it go together. */
module TransferBuffers {
  import opened Returns
  import opened Words
  import opened Fences
  import opened SvgaDevice
  import opened Ids
  import opened Gmr

  const SVGA_ID_INVALID: Word := 0xFFFF_FFFF

  /** A transfer buffer. `segments` are the physical pieces of its memory, and `wired` counts the calls of that
      memory's `prepare` that were not completed; both outlive the reference to it that `hasMd` stands for. */
  datatype VendorTransferBuffer =
    VendorTransferBuffer(hasMd: bool, segments: seq<Segment>, wired: nat, gmrId: Word, fence: Word)
  {
    predicate HasGmr() {
      gmrId < 0x8000_0000
    }
  }

  /** A buffer has a GMR id exactly while the id is in use and its memory is wired. Memory that was discarded
      while the buffer had its id stays wired. */
  predicate BufferOk(b: VendorTransferBuffer, live: set<nat>) {
    if b.HasGmr() then b.gmrId in live && b.wired == 1
    else b.gmrId == SVGA_ID_INVALID && (b.hasMd ==> b.wired == 0)
  }

  ghost predicate Holds(bufs: seq<VendorTransferBuffer>, i: nat, id: nat)
    requires i < |bufs|
  {
    bufs[i].HasGmr() && bufs[i].gmrId == id
  }

  ghost predicate Held(bufs: seq<VendorTransferBuffer>, id: nat) {
    exists i: nat :: i < |bufs| && Holds(bufs, i, id)
  }

  /** Every id in use belongs to exactly one buffer: none is shared and none is leaked. */
  ghost predicate Owned(bufs: seq<VendorTransferBuffer>, live: set<nat>) {
    && (forall i | 0 <= i < |bufs| :: BufferOk(bufs[i], live))
    && (forall i, j | 0 <= i < j < |bufs| && bufs[i].HasGmr() && bufs[j].HasGmr() :: bufs[i].gmrId != bufs[j].gmrId)
    && (forall id | id in live :: Held(bufs, id))
  }

  lemma OwnedTaken(bufs: seq<VendorTransferBuffer>, i: nat, b: VendorTransferBuffer, live: set<nat>)
    requires Owned(bufs, live) && i < |bufs| && !bufs[i].HasGmr()
    requires b.HasGmr() && b.gmrId !in live && b.hasMd && b.wired == 1
    ensures Owned(bufs[i := b], live + {b.gmrId})
  {
    var bufs' := bufs[i := b];
    forall j | 0 <= j < |bufs| && j != i && bufs[j].HasGmr()
      ensures bufs[j].gmrId != b.gmrId
    {
      assert BufferOk(bufs[j], live);
    }
    forall id | id in live + {b.gmrId}
      ensures Held(bufs', id)
    {
      if id == b.gmrId {
        assert Holds(bufs', i, id);
      } else {
        var j: nat :| j < |bufs| && Holds(bufs, j, id);
        assert Holds(bufs', j, id);
      }
    }
  }

  lemma OwnedDropped(bufs: seq<VendorTransferBuffer>, i: nat, b: VendorTransferBuffer, live: set<nat>)
    requires Owned(bufs, live) && i < |bufs| && bufs[i].HasGmr()
    requires b.gmrId == SVGA_ID_INVALID && (b.hasMd ==> b.wired == 0)
    ensures Owned(bufs[i := b], live - {bufs[i].gmrId})
  {
    var bufs', live' := bufs[i := b], live - {bufs[i].gmrId};
    forall j | 0 <= j < |bufs|
      ensures BufferOk(bufs'[j], live')
    {
      assert BufferOk(bufs[j], live);
    }
    forall id | id in live'
      ensures Held(bufs', id)
    {
      var j: nat :| j < |bufs| && Holds(bufs, j, id);
      assert Holds(bufs', j, id);
    }
  }

  // ----- what the device has a definition for -----

  /** What the device read when an id was defined; `None` if it could not make sense of the table. */
  type Definitions = map<nat, Option<seq<Range>>>

  /** The device's definition of a buffer's id is the buffer's memory, segment by segment, exactly if its
      segments fit the descriptors. */
  ghost predicate DefinedAs(b: VendorTransferBuffer, defined: Definitions) {
    b.HasGmr() ==>
      b.gmrId as nat in defined && (defined[b.gmrId] == Some(Ranges(b.segments)) <==> Storable(b.segments))
  }

  ghost predicate AllDefined(bufs: seq<VendorTransferBuffer>, defined: Definitions) {
    forall i | 0 <= i < |bufs| :: DefinedAs(bufs[i], defined)
  }

  lemma DefinedMore(bufs: seq<VendorTransferBuffer>, i: nat, b: VendorTransferBuffer, live: set<nat>,
                    defined: Definitions, r: Option<seq<Range>>)
    requires Owned(bufs, live) && AllDefined(bufs, defined) && i < |bufs| && b.HasGmr() && b.gmrId !in live
    requires r == Some(Ranges(b.segments)) <==> Storable(b.segments)
    ensures AllDefined(bufs[i := b], defined[b.gmrId as nat := r])
  {
    hide Ranges, Storable;
    var bufs', defined' := bufs[i := b], defined[b.gmrId as nat := r];
    forall j | 0 <= j < |bufs|
      ensures DefinedAs(bufs'[j], defined')
    {
      assert DefinedAs(bufs[j], defined) && BufferOk(bufs[j], live);
    }
  }

  lemma DefinedLess(bufs: seq<VendorTransferBuffer>, i: nat, b: VendorTransferBuffer, live: set<nat>, defined: Definitions)
    requires Owned(bufs, live) && AllDefined(bufs, defined) && i < |bufs| && bufs[i].HasGmr() && !b.HasGmr()
    ensures AllDefined(bufs[i := b], defined - {bufs[i].gmrId as nat})
  {
    hide Ranges, Storable;
    var bufs', defined' := bufs[i := b], defined - {bufs[i].gmrId as nat};
    forall j | 0 <= j < |bufs|
      ensures DefinedAs(bufs'[j], defined')
    {
      assert DefinedAs(bufs[j], defined);
    }
  }

  lemma DefinedSame(bufs: seq<VendorTransferBuffer>, i: nat, b: VendorTransferBuffer, defined: Definitions)
    requires AllDefined(bufs, defined) && i < |bufs| && b.gmrId == bufs[i].gmrId
    requires b.HasGmr() ==> b.segments == bufs[i].segments
    ensures AllDefined(bufs[i := b], defined)
  {
    hide Ranges, Storable;
    assert DefinedAs(bufs[i], defined);
  }

  /** Changes that leave the ids alone. */
  lemma OwnedSame(bufs: seq<VendorTransferBuffer>, i: nat, b: VendorTransferBuffer, live: set<nat>)
    requires Owned(bufs, live) && i < |bufs| && b.gmrId == bufs[i].gmrId && b.wired == bufs[i].wired
    requires b.hasMd ==> bufs[i].hasMd
    ensures Owned(bufs[i := b], live)
  {
    var bufs' := bufs[i := b];
    forall id | id in live
      ensures Held(bufs', id)
    {
      var j: nat :| j < |bufs| && Holds(bufs, j, id);
      assert Holds(bufs', j, id);
    }
  }

  // ----- what the device still has to do with a buffer -----

  /** Once `fence` has passed, the first `use` words of the stream are executed. */
  ghost predicate Covered(use: nat, fence: Word, hasFence: bool, fences: seq<Fence>, published: nat, executed: nat) {
    || use <= executed
    || (fence == 1 && !hasFence && use <= published)
    || (fence != 0 && hasFence && exists k: nat :: k < |fences| && Value(fences[k].serial) == fence && use <= fences[k].end)
  }

  lemma CoveredKept(use: nat, fence: Word, hasFence: bool, fences: seq<Fence>, published: nat, executed: nat,
                    fences': seq<Fence>, published': nat, executed': nat)
    requires Covered(use, fence, hasFence, fences, published, executed)
    requires fences <= fences' && published <= published' && executed <= executed'
    ensures Covered(use, fence, hasFence, fences', published', executed')
  {
    if fence != 0 && hasFence && exists k: nat :: k < |fences| && Value(fences[k].serial) == fence && use <= fences[k].end {
      var k: nat :| k < |fences| && Value(fences[k].serial) == fence && use <= fences[k].end;
      assert k < |fences'| && Value(fences'[k].serial) == fence && use <= fences'[k].end;
    }
  }

  lemma CoveredSynced(use: nat, fence: Word, hasFence: bool, fences: seq<Fence>, published: nat, executed: nat)
    requires Covered(use, fence, hasFence, fences, published, executed) && fence != 0
    requires hasFence ==> AllExecuted(fences, fence, executed)
    requires !hasFence ==> executed == published
    ensures use <= executed
  {
  }

  ghost predicate AllCovered(bufs: seq<VendorTransferBuffer>, uses: seq<nat>, hasFence: bool, fences: seq<Fence>,
                             published: nat, executed: nat) {
    && |uses| == |bufs|
    && forall i | 0 <= i < |bufs| :: Covered(uses[i], bufs[i].fence, hasFence, fences, published, executed)
  }

  lemma AllCoveredKept(bufs: seq<VendorTransferBuffer>, uses: seq<nat>, hasFence: bool, fences: seq<Fence>,
                       published: nat, executed: nat, fences': seq<Fence>, published': nat, executed': nat)
    requires AllCovered(bufs, uses, hasFence, fences, published, executed)
    requires fences <= fences' && published <= published' && executed <= executed'
    ensures AllCovered(bufs, uses, hasFence, fences', published', executed')
  {
    hide Covered;
    forall i | 0 <= i < |bufs|
      ensures Covered(uses[i], bufs[i].fence, hasFence, fences', published', executed')
    {
      CoveredKept(uses[i], bufs[i].fence, hasFence, fences, published, executed, fences', published', executed');
    }
  }

  lemma AllCoveredSame(bufs: seq<VendorTransferBuffer>, i: nat, b: VendorTransferBuffer, uses: seq<nat>, hasFence: bool,
                       fences: seq<Fence>, published: nat, executed: nat)
    requires AllCovered(bufs, uses, hasFence, fences, published, executed) && i < |bufs| && b.fence == bufs[i].fence
    ensures AllCovered(bufs[i := b], uses, hasFence, fences, published, executed)
  {
    hide Covered;
  }

  lemma AllCoveredSynced(bufs: seq<VendorTransferBuffer>, i: nat, b: VendorTransferBuffer, uses: seq<nat>, hasFence: bool,
                         fences: seq<Fence>, published: nat, executed: nat)
    requires AllCovered(bufs, uses, hasFence, fences, published, executed) && i < |bufs| && uses[i] <= executed
    ensures AllCovered(bufs[i := b], uses, hasFence, fences, published, executed)
  {
    assert Covered(uses[i], b.fence, hasFence, fences, published, executed);
    hide Covered;
  }

  /** A new use, ended by the fence that was just inserted. */
  lemma AllCoveredUsed(bufs: seq<VendorTransferBuffer>, i: nat, b: VendorTransferBuffer, uses: seq<nat>, use: nat,
                       hasFence: bool, fences: seq<Fence>, published: nat, executed: nat)
    requires AllCovered(bufs, uses, hasFence, fences, published, executed) && i < |bufs| && use <= published
    requires if hasFence then fences != [] && b.fence == Value(fences[|fences| - 1].serial) && use <= fences[|fences| - 1].end
             else b.fence == 1
    ensures AllCovered(bufs[i := b], uses[i := use], hasFence, fences, published, executed)
  {
    assert Covered(use, b.fence, hasFence, fences, published, executed);
    hide Covered;
  }

  lemma CoveredAt(bufs: seq<VendorTransferBuffer>, uses: seq<nat>, i: nat, hasFence: bool, fences: seq<Fence>,
                  published: nat, executed: nat)
    requires AllCovered(bufs, uses, hasFence, fences, published, executed) && i < |bufs|
    ensures |uses| == |bufs| && Covered(uses[i], bufs[i].fence, hasFence, fences, published, executed)
  {
  }

  lemma NoFenceNoUse(use: nat, hasFence: bool, fences: seq<Fence>, published: nat, executed: nat)
    requires Covered(use, 0, hasFence, fences, published, executed)
    ensures use <= executed
  {
  }

  lemma IdleBuffer(bufs: seq<VendorTransferBuffer>, i: nat, live: set<nat>)
    requires Owned(bufs, live) && i < |bufs|
    ensures BufferOk(bufs[i], live)
  {
  }

  lemma OnlyHolder(bufs: seq<VendorTransferBuffer>, i: nat, live: set<nat>)
    requires Owned(bufs, live) && i < |bufs| && bufs[i].HasGmr()
    ensures forall j: nat | j < |bufs| && Holds(bufs, j, bufs[i].gmrId) :: j == i
  {
  }

  lemma Prepared(bufs: seq<VendorTransferBuffer>, i: nat, b: VendorTransferBuffer, live: set<nat>,
                 defined: Definitions, read: Option<seq<Range>>)
    requires Owned(bufs, live) && AllDefined(bufs, defined) && defined.Keys == live && i < |bufs| && !bufs[i].HasGmr()
    requires b.HasGmr() && b.gmrId !in live && b.hasMd && b.wired == 1
    requires read == Some(Ranges(b.segments)) <==> Storable(b.segments)
    ensures Owned(bufs[i := b], live + {b.gmrId}) && AllDefined(bufs[i := b], defined[b.gmrId as nat := read])
    ensures defined[b.gmrId as nat := read].Keys == live + {b.gmrId}
  {
    hide Owned, AllDefined, Ranges, Storable;
    OwnedTaken(bufs, i, b, live);
    DefinedMore(bufs, i, b, live, defined, read);
  }

  class TransferBuffers {
    const svga: SVGADevice
    const ids: GMRIds
    const buffers: array<VendorTransferBuffer>
    /** What the device can do, and the GMRs it has a definition for. */
    const hasGmr: bool
    const maxDescriptors: nat
    var defined: Definitions
    /** How much of the stream has to be executed before the device no longer needs a buffer. */
    ghost var uses: seq<nat>

    ghost function LiveIds(): set<nat>
      reads ids.pool.mask
    {
      set id: nat | id < 128 && ids.Live(id)
    }

    ghost predicate Valid()
      reads this, svga, svga.fifo, svga.bounceBuffer, ids, ids.pool, ids.pool.mask, buffers
    {
      && svga.Valid() && !svga.pending && svga.FewFailed() && ids.Valid()
      && Owned(buffers[..], LiveIds()) && defined.Keys == LiveIds() && AllDefined(buffers[..], defined)
      && AllCovered(buffers[..], uses, svga.hasFence, svga.fences, svga.published, svga.executed)
    }

    /** Buffers as `init` leaves them, each with its memory attached. */
    constructor (device: SVGADevice, maxGMRIDs: nat, canGmr: bool, descriptors: nat, memory: seq<seq<Segment>>)
      requires device.Valid() && !device.pending && device.FewFailed()
      ensures Valid() && svga == device && buffers.Length == |memory| && defined == map[]
      ensures hasGmr == canGmr && maxDescriptors == descriptors
      ensures forall i | 0 <= i < |memory| :: buffers[i].hasMd && buffers[i].segments == memory[i]
    {
      svga, hasGmr, maxDescriptors := device, canGmr, descriptors;
      ids := new GMRIds(maxGMRIDs);
      buffers := new VendorTransferBuffer[|memory|](i requires 0 <= i < |memory| =>
        VendorTransferBuffer(true, memory[i], 0, SVGA_ID_INVALID, 0));
      defined := map[];
      uses := seq(|memory|, _ => 0);
    }

    /** Whatever was prepared and completed, and in which order: every definition in the device belongs to one
        buffer, and is that buffer's memory, segment by segment, exactly if the segments fit descriptors. */
    lemma DefinitionOfHolder(id: nat)
      requires Valid() && id in defined
      ensures exists i: nat ::
                && i < buffers.Length && Holds(buffers[..], i, id)
                && (defined[id] == Some(Ranges(buffers[i].segments)) <==> Storable(buffers[i].segments))
      ensures forall i: nat, j: nat | i < j < buffers.Length && Holds(buffers[..], i, id) :: !Holds(buffers[..], j, id)
    {
      hide SVGADevice.Valid, GMRIds.Valid, AllCovered, Ranges, Storable, LiveIds;
      assert Held(buffers[..], id);
      var i: nat :| i < buffers.Length && Holds(buffers[..], i, id);
      assert DefinedAs(buffers[..][i], defined);
    }

    /** Every id the device has is in use. */
    ghost predicate NoIdLeft(live: set<nat>) {
      forall id: nat | id < ids.maxIds && id < 128 :: id in live
    }

    /** `AllocGMRID`. */
    method TakeId() returns (id: int)
      requires ids.Valid()
      modifies ids.pool`idx, ids.pool.mask
      ensures ids.Valid()
      ensures id < 0 <==> NoIdLeft(old(LiveIds()))
      ensures id < 0 ==> id == -1 && LiveIds() == old(LiveIds())
      ensures id >= 0 ==> id < ids.maxIds && id < 128 && id !in old(LiveIds()) && LiveIds() == old(LiveIds()) + {id}
      ensures forall m: nat | m < id :: m in old(LiveIds())
      ensures id < 0 <==> forall m: nat | m < ids.maxIds && m < 128 :: old(ids.Live(m))
    {
      hide GMRIds.Valid, GMRIds.Live;
      ghost var live := LiveIds();
      assert forall m: nat | m < 128 :: m in live <==> ids.Live(m);
      id := ids.AllocGMRID();
      if id >= 0 {
        assert id as nat !in live;
      } else {
        assert NoIdLeft(live);
      }
    }

    /** `FreeGMRID` of an id in use. */
    method GiveId(id: nat)
      requires ids.Valid() && id in LiveIds()
      modifies ids.pool`idx, ids.pool.mask
      ensures ids.Valid() && LiveIds() == old(LiveIds()) - {id}
    {
      hide GMRIds.Valid;
      ids.FreeGMRID(id);
    }

    /** What `prepare` returns for buffer `b`. */
    ghost function PrepareResult(b: VendorTransferBuffer, live: set<nat>, wired: IOReturn,
                                 helper: Option<seq<Segment>>, helperWired: IOReturn): IOReturn {
      if b.HasGmr() then Success
      else if !b.hasMd then NotReady
      else if NoIdLeft(live) then NoResources
      else if wired != Success then wired
      else CreateResult(b.segments, hasGmr, maxDescriptors, helper, helperWired)
    }

    /** `createGMR` for a fresh id: on success the device reads the table and defines the id by it. */
    method DefineGMR(gmrId: nat, segments: seq<Segment>, helper: Option<seq<Segment>>, helperWired: IOReturn)
      returns (rc: IOReturn, read: Option<seq<Range>>)
      requires NonEmpty(segments) && (helper.Some? ==> GoodHelper(helper.value, TablePages(segments)))
      modifies this`defined
      ensures rc == CreateResult(segments, hasGmr, maxDescriptors, helper, helperWired)
      ensures rc == Success ==>
                defined == old(defined)[gmrId := read] && (read == Some(Ranges(segments)) <==> Storable(segments))
      ensures rc != Success ==> defined == old(defined)
    {
      hide NonEmpty, GoodHelper, Decode, TableOk, Ranges, Storable;
      var table, base;
      read := None;
      rc, table, base := CreateGMR(segments, hasGmr, maxDescriptors, helper, helperWired);
      if rc == Success {
        read := Decode(Ppns(helper.value, TablePages(segments)), table[..], base, 0, maxDescriptors);
        defined := defined[gmrId := read];
      }
    }

    /** `prepare`. `wired` is what wiring the memory returns, `helper` and `helperWired` what `createGMR` gets for
        its table. If anything fails, everything is as before. */
    method Prepare(i: nat, wired: IOReturn, helper: Option<seq<Segment>>, helperWired: IOReturn) returns (rc: IOReturn)
      requires Valid() && i < buffers.Length && NonEmpty(buffers[i].segments)
      requires helper.Some? ==> GoodHelper(helper.value, TablePages(buffers[i].segments))
      modifies this`defined, ids.pool`idx, ids.pool.mask, buffers
      ensures Valid()
      ensures rc == PrepareResult(old(buffers[i]), old(LiveIds()), wired, helper, helperWired)
      // it succeeds for a buffer that is prepared already, and for one that lacks nothing
      ensures rc == Success <==>
                || old(buffers[i]).gmrId < 0x8000_0000
                || (old(buffers[i]).hasMd && (exists id: nat :: id < ids.maxIds && id < 128 && !old(ids.Live(id)))
                    && wired == Success && hasGmr && |Seen(old(buffers[i]).segments)| > 0
                    && (forall j | 0 <= j < |Seen(old(buffers[i]).segments)| :: old(buffers[i]).segments[j].addr < ADDRESS_LIMIT)
                    && |Seen(old(buffers[i]).segments)| + (|Seen(old(buffers[i]).segments)| + 510) / 511 <= maxDescriptors
                    && helper.Some? && helperWired == Success)
      // then the buffer has the lowest id that was not in use
      ensures rc == Success && old(buffers[i]).gmrId >= 0x8000_0000 ==>
                && buffers[i] == old(buffers[i]).(gmrId := buffers[i].gmrId, wired := 1) && buffers[i].gmrId < 0x8000_0000
                && buffers[i].gmrId as nat !in old(defined) && (forall m: nat | m < buffers[i].gmrId :: m in old(defined))
                && defined.Keys == old(defined).Keys + {buffers[i].gmrId as nat}
                && defined == old(defined)[buffers[i].gmrId as nat := defined[buffers[i].gmrId as nat]]
      ensures rc != Success || old(buffers[i]).HasGmr() ==> buffers[..] == old(buffers[..]) && defined == old(defined)
      ensures forall j | 0 <= j < buffers.Length && j != i :: buffers[j] == old(buffers[j])
    {
      hide SVGADevice.Valid, GMRIds.Valid, Owned, AllCovered, AllDefined, LiveIds, NoIdLeft, CreateResult, NonEmpty,
        GoodHelper, TablePages, Ranges, Storable;
      if buffers[i].HasGmr() {
        return Success;
      }
      if !buffers[i].hasMd {
        return NotReady;
      }
      ghost var was, live, defined0 := buffers[..], LiveIds(), defined;
      IdleBuffer(was, i, live);
      var r := TakeId();
      if r < 0 {
        return NoResources;
      }
      buffers[i] := buffers[i].(gmrId := r);
      rc := wired;
      if wired == Success {
        buffers[i] := buffers[i].(wired := buffers[i].wired + 1);
        var read;
        rc, read := DefineGMR(r, buffers[i].segments, helper, helperWired);
        CreateSucceeds(buffers[i].segments, hasGmr, maxDescriptors, helper, helperWired);
        if rc == Success {
          Prepared(was, i, buffers[i], live, defined0, read);
          assert buffers[..] == was[i := buffers[i]];
          AllCoveredSame(was, i, buffers[i], uses, svga.hasFence, svga.fences, svga.published, svga.executed);
          return Success;
        }
        buffers[i] := buffers[i].(wired := buffers[i].wired - 1);
      }
      GiveId(r);
      buffers[i] := buffers[i].(gmrId := SVGA_ID_INVALID);
      assert buffers[..] == was;
    }

    /** `sync`. Afterwards the device has executed everything it needed the buffer for. */
    method Sync(i: nat)
      requires Valid() && i < buffers.Length
      modifies svga`stop, svga`fenceReg, svga`executed, svga`consumed, buffers
      ensures Valid() && svga.executed >= old(svga.executed)
      ensures buffers[i] == old(buffers[i]).(fence := 0) && uses[i] <= svga.executed
      ensures forall j | 0 <= j < buffers.Length && j != i :: buffers[j] == old(buffers[j])
    {
      hide SVGADevice.Valid, GMRIds.Valid, Owned, AllCovered, AllDefined, LiveIds, Covered, AllExecuted, Failed,
        SVGADevice.Window, SVGADevice.FenceSynced;
      ghost var was, executed0, published0 := buffers[..], svga.executed, svga.published;
      CoveredAt(was, uses, i, svga.hasFence, svga.fences, svga.published, svga.executed);
      if buffers[i].fence == 0 {
        NoFenceNoUse(uses[i], svga.hasFence, svga.fences, svga.published, svga.executed);
        return;
      }
      svga.WindowHolds();
      svga.SyncToFence(buffers[i].fence);
      svga.StillFew(executed0);
      CoveredKept(uses[i], was[i].fence, svga.hasFence, svga.fences, published0, executed0,
                  svga.fences, svga.published, svga.executed);
      CoveredSynced(uses[i], was[i].fence, svga.hasFence, svga.fences, svga.published, svga.executed);
      AllCoveredKept(was, uses, svga.hasFence, svga.fences, published0, executed0,
                     svga.fences, svga.published, svga.executed);
      buffers[i] := buffers[i].(fence := 0);
      assert buffers[..] == was[i := buffers[i]];
      OwnedSame(was, i, buffers[i], LiveIds());
      DefinedSame(was, i, buffers[i], defined);
      AllCoveredSynced(was, i, buffers[i], uses, svga.hasFence, svga.fences, svga.published, svga.executed);
    }

    /** `destroyGMR`: the device forgets a definition. Nobody calls it before the device is done with it. */
    method DestroyGMR(gmrId: nat)
      requires forall j | 0 <= j < buffers.Length && Holds(buffers[..], j, gmrId) :: j < |uses| && uses[j] <= svga.executed
      modifies this`defined
      ensures defined == old(defined) - {gmrId}
    {
      defined := defined - {gmrId};
    }

    /** `complete`: the buffer loses its GMR, after the device has executed all that uses it; its memory is
        released and its id is free again. */
    method Complete(i: nat)
      requires Valid() && i < buffers.Length
      modifies this`defined, svga`stop, svga`fenceReg, svga`executed, svga`consumed, ids.pool`idx, ids.pool.mask, buffers
      ensures Valid() && svga.executed >= old(svga.executed) && uses[i] <= svga.executed
      ensures !buffers[i].HasGmr()
      ensures buffers[i] == old(buffers[i]).(gmrId := SVGA_ID_INVALID, fence := 0, wired := buffers[i].wired)
      ensures buffers[i].wired == if buffers[i].hasMd then 0 else old(buffers[i]).wired
      ensures defined == old(defined) - (if old(buffers[i]).HasGmr() then {old(buffers[i]).gmrId as nat} else {})
      ensures forall j | 0 <= j < buffers.Length && j != i :: buffers[j] == old(buffers[j])
    {
      hide SVGADevice.Valid, GMRIds.Valid, Owned, AllCovered, AllDefined, LiveIds;
      Sync(i);
      ghost var was, live, defined0 := buffers[..], LiveIds(), defined;
      IdleBuffer(was, i, live);
      if !buffers[i].HasGmr() {
        return;
      }
      OnlyHolder(was, i, live);
      CoveredAt(was, uses, i, svga.hasFence, svga.fences, svga.published, svga.executed);
      DestroyGMR(buffers[i].gmrId);
      if buffers[i].hasMd {
        buffers[i] := buffers[i].(wired := buffers[i].wired - 1);
      }
      GiveId(buffers[i].gmrId);
      buffers[i] := buffers[i].(gmrId := SVGA_ID_INVALID);
      assert buffers[..] == was[i := buffers[i]];
      OwnedDropped(was, i, buffers[i], live);
      DefinedLess(was, i, buffers[i], live, defined0);
      AllCoveredSame(was, i, buffers[i], uses, svga.hasFence, svga.fences, svga.published, svga.executed);
    }

    /** `discard`. Its callers complete the buffer first; memory discarded before that stays wired, and
        `complete` can no longer undo it. */
    method Discard(i: nat)
      requires Valid() && i < buffers.Length
      modifies buffers
      ensures Valid() && buffers[i] == old(buffers[i]).(hasMd := false)
      ensures forall j | 0 <= j < buffers.Length && j != i :: buffers[j] == old(buffers[j])
    {
      hide SVGADevice.Valid, GMRIds.Valid, Owned, AllCovered, AllDefined, LiveIds;
      ghost var was := buffers[..];
      if !buffers[i].hasMd {
        return;
      }
      buffers[i] := buffers[i].(hasMd := false);
      assert buffers[..] == was[i := buffers[i]];
      OwnedSame(was, i, buffers[i], LiveIds());
      DefinedSame(was, i, buffers[i], defined);
      AllCoveredSame(was, i, buffers[i], uses, svga.hasFence, svga.fences, svga.published, svga.executed);
    }

    /** The commands published so far use the buffer, and `*fence = InsertFence()` marks their end. */
    method Use(i: nat)
      requires Valid() && i < buffers.Length && svga.reservedSize == 0
      modifies this`uses, svga`stop, svga`fenceReg, svga`executed, svga`consumed, svga`nextCmd, svga`published,
               svga`fences, svga`stream, svga`draws, svga`pending, svga`reservedSize, svga`reservedReg,
               svga`nextFence, svga`usingBounceBuffer, svga.fifo, svga.bounceBuffer, buffers
      ensures Valid() && svga.executed >= old(svga.executed) && svga.reservedSize == 0
      ensures uses == old(uses)[i := |old(svga.stream)|]
      ensures buffers[i] == old(buffers[i]).(fence := buffers[i].fence) && buffers[i].fence != 0
      ensures forall j | 0 <= j < buffers.Length && j != i :: buffers[j] == old(buffers[j])
    {
      hide SVGADevice.Valid, GMRIds.Valid, Owned, AllCovered, AllDefined, LiveIds, Covered, Value, Failed;
      ghost var was, published0, executed0, fences0 := buffers[..], svga.published, svga.executed, svga.fences;
      StreamIsPublished();
      var fence := svga.InsertFence();
      StreamIsPublished();
      AllCoveredKept(was, uses, svga.hasFence, fences0, published0, executed0, svga.fences, svga.published, svga.executed);
      CoveredAt(was, uses, i, svga.hasFence, fences0, published0, executed0);
      buffers[i] := buffers[i].(fence := fence);
      assert buffers[..] == was[i := buffers[i]];
      OwnedSame(was, i, buffers[i], LiveIds());
      DefinedSame(was, i, buffers[i], defined);
      AllCoveredUsed(was, i, buffers[i], uses, published0, svga.hasFence, svga.fences, svga.published, svga.executed);
      uses := uses[i := published0];
    }

    lemma StreamIsPublished()
      requires svga.Valid()
      ensures svga.published == |svga.stream|
    {
    }
  }
}
