/** At most N presents are ever outstanding: each waits for the fence of the present N calls before it. */
module PresentThrottle {
  import opened Words
  import opened Fences
  import opened SvgaDevice

  const AUTO_SYNC_PRESENT_FENCE_COUNT: nat := 2

  /** The ring of the last N fences (`FenceTracker<N>`). */
  class FenceTracker {
    const N: nat
    var counter: nat
    var fences: array<Word>

    ghost predicate Valid()
      reads this
    {
      0 <= counter < N == fences.Length
    }

    /** The last N fences, oldest first; 0 stands for a call that was not made yet. */
    ghost function Recent(): (r: seq<Word>)
      requires Valid()
      reads this, fences
      ensures |r| == N
    {
      fences[counter..] + fences[..counter]
    }

    constructor (n: nat)
      requires n > 0
      ensures Valid() && N == n && fresh(fences) && forall i | 0 <= i < N :: Recent()[i] == 0
    {
      N := n;
      counter := 0;
      fences := new Word[n](_ => 0);
    }

    method Before() returns (fence: Word)
      requires Valid()
      ensures fence == Recent()[0]
    {
      fence := fences[counter];
    }

    method After(fence: Word)
      requires Valid()
      modifies this`counter, fences
      ensures Valid() && Recent() == old(Recent())[1..] + [fence]
    {
      fences[counter] := fence;
      counter := counter + 1;
      if counter == N {
        counter := 0;
      }
    }
  }

  /** A present whose command ends at `end` of the stream, followed by fence number `mark` of the device. */
  datatype Present = Marked(end: nat, mark: nat)

  /** Present `i` is executed once its fence is, and `fence` is what the tracker holds for it. */
  ghost predicate MarkedBy(p: Present, fence: Word, hasFence: bool, fences: seq<Fence>, published: nat) {
    if hasFence then p.mark < |fences| && p.end <= fences[p.mark].end && fence == Value(fences[p.mark].serial)
    else p.end <= published && fence == 1
  }

  /** All but the last N presents are executed, and the tracker holds the fences of the last N. */
  ghost predicate Throttled(presents: seq<Present>, recent: seq<Word>, hasFence: bool, fences: seq<Fence>,
                            published: nat, executed: nat) {
    && (forall i: nat | i + |recent| < |presents| :: presents[i].end <= executed)
    && (forall j: nat | j < |recent| ::
          if |presents| + j < |recent| then recent[j] == 0
          else MarkedBy(presents[|presents| + j - |recent|], recent[j], hasFence, fences, published))
  }

  /** Whatever else happens in the FIFO, the bound stays. */
  lemma ThrottledKept(presents: seq<Present>, recent: seq<Word>, hasFence: bool, fences: seq<Fence>,
                      published: nat, executed: nat, fences': seq<Fence>, published': nat, executed': nat)
    requires Throttled(presents, recent, hasFence, fences, published, executed)
    requires fences <= fences' && published <= published' && executed <= executed'
    ensures Throttled(presents, recent, hasFence, fences', published', executed')
  {
    forall j: nat | j < |recent| && |presents| + j >= |recent|
      ensures MarkedBy(presents[|presents| + j - |recent|], recent[j], hasFence, fences', published')
    {
      assert MarkedBy(presents[|presents| + j - |recent|], recent[j], hasFence, fences, published);
    }
  }

  /** How many presents the device has been given and has not executed. */
  ghost function Outstanding(presents: seq<Present>, executed: nat): (n: nat)
    ensures n <= |presents|
  {
    if presents == [] then 0
    else Outstanding(presents[..|presents| - 1], executed) + if presents[|presents| - 1].end > executed then 1 else 0
  }

  lemma {:induction false} OutstandingNone(presents: seq<Present>, executed: nat)
    requires forall i | 0 <= i < |presents| :: presents[i].end <= executed
    ensures Outstanding(presents, executed) == 0
  {
    if presents != [] {
      OutstandingNone(presents[..|presents| - 1], executed);
    }
  }

  lemma {:induction false} OutstandingAtMost(presents: seq<Present>, executed: nat, n: nat)
    requires forall i: nat | i + n < |presents| :: presents[i].end <= executed
    ensures Outstanding(presents, executed) <= n
  {
    if n == 0 {
      OutstandingNone(presents, executed);
    } else if presents != [] {
      OutstandingAtMost(presents[..|presents| - 1], executed, n - 1);
    }
  }

  class Accel {
    const svga: SVGADevice
    const tracker: FenceTracker
    ghost var presents: seq<Present>

    /** `FIFOReserve` answers a request of this size: only one of exactly the size of the ring can wait for ever. */
    ghost predicate FitsOrRefused(bytes: nat)
      reads svga
    {
      bytes == svga.max - svga.min ==> bytes > BOUNCE_BUFFER_SIZE || svga.reservedSize != 0
    }

    ghost predicate Valid()
      reads this, svga, svga.fifo, svga.bounceBuffer, tracker, tracker.fences
    {
      && svga.Valid() && !svga.pending && svga.FewFailed() && tracker.Valid()
      && tracker.fences != svga.fifo && tracker.fences != svga.bounceBuffer
      && Throttled(presents, tracker.Recent(), svga.hasFence, svga.fences, svga.published, svga.executed)
    }

    constructor (device: SVGADevice)
      requires device.Valid() && !device.pending && device.FewFailed()
      ensures Valid() && svga == device && presents == [] && tracker.N == AUTO_SYNC_PRESENT_FENCE_COUNT
    {
      svga := device;
      tracker := new FenceTracker(AUTO_SYNC_PRESENT_FENCE_COUNT);
      presents := [];
    }

    /** The bound, for every state a run can reach. */
    lemma AtMostNOutstanding()
      requires Valid()
      ensures Outstanding(presents, svga.executed) <= tracker.N
    {
      OutstandingAtMost(presents, svga.executed, tracker.N);
    }

    /** The client fills in the present command it reserved. */
    method Fill(words: seq<Word>)
      requires svga.Valid() && svga.reservedSize == 4 * |words| > 0
      modifies svga`stop, svga`fenceReg, svga`executed, svga`consumed, svga.fifo, svga.bounceBuffer
      ensures svga.Valid() && svga.executed >= old(svga.executed) && svga.Draft() == words
    {
      hide *;
      for i := 0 to |words|
        invariant svga.Valid() && svga.executed >= old(svga.executed) && svga.reservedSize == 4 * |words|
        invariant |svga.Draft()| == |words| && forall k | 0 <= k < i :: svga.Draft()[k] == words[k]
      {
        svga.WriteReserved(i, words[i]);
      }
      assert svga.Draft() == words;
    }

    /** `BeginPresent` to `FIFOCommitAll`: the present command `words` goes to the device, if it can be
        reserved. */
    method SendPresent(words: seq<Word>) returns (sent: bool)
      requires svga.Valid() && !svga.pending && words != [] && FitsOrRefused(4 * |words|)
      modifies svga`stop, svga`fenceReg, svga`executed, svga`consumed, svga`nextCmd, svga`published, svga`fences,
               svga`stream, svga`draws, svga`pending, svga`reservedSize, svga`reservedReg, svga`usingBounceBuffer,
               svga.fifo, svga.bounceBuffer
      ensures svga.Valid() && !svga.pending && svga.executed >= old(svga.executed) && svga.fences == old(svga.fences)
      ensures sent <==>
                4 * |words| <= BOUNCE_BUFFER_SIZE && 4 * |words| < svga.max - svga.min && old(svga.reservedSize) == 0
      ensures svga.stream == old(svga.stream) + if sent then words else []
      ensures svga.reservedSize == old(svga.reservedSize) && svga.draws == old(svga.draws)
    {
      hide SVGADevice.Valid;
      var place := svga.FIFOReserve(4 * |words|);
      sent := place != NoPlace;
      if sent {
        Fill(words);
        svga.FIFOCommitAll(false);
      }
    }

    /** Every present but the last N - 1 is executed: there is room for one more. */
    ghost predicate RoomForOne()
      reads this, svga, tracker
    {
      tracker.N > 0 && forall i: nat | i + tracker.N - 1 < |presents| :: presents[i].end <= svga.executed
    }

    /** With room for one, the bound holds from the moment the next present is in the ring. */
    lemma BoundWithOneMore(p: Present)
      requires Valid() && RoomForOne()
      ensures Outstanding(presents + [p], svga.executed) <= tracker.N
    {
      OutstandingAtMost(presents + [p], svga.executed, tracker.N);
    }

    /** A fence that another user of the FIFO inserts. With an open reservation, which the driver does not have
        there, the call would fail, and very many failures are not allowed for. */
    method OtherFence() returns (fence: Word)
      requires Valid()
      requires svga.reservedSize != 0 && svga.hasFence ==> Failed(svga.fences, svga.executed, svga.draws) < 0x5FFF_FFFF
      modifies svga`stop, svga`fenceReg, svga`executed, svga`consumed, svga`nextCmd, svga`published, svga`fences,
               svga`stream, svga`draws, svga`pending, svga`reservedSize, svga`reservedReg, svga`nextFence,
               svga`usingBounceBuffer, svga.fifo, svga.bounceBuffer
      ensures Valid() && svga.executed >= old(svga.executed) && svga.reservedSize == old(svga.reservedSize)
      ensures fence == if !svga.hasFence then 1 else if old(svga.reservedSize) != 0 then 0 else Value(old(svga.draws))
      ensures svga.stream == old(svga.stream) + if svga.hasFence && fence != 0 then [SVGA_CMD_FENCE, fence] else []
    {
      hide Throttled, SVGADevice.Valid, Failed;
      DeviceStream();
      ghost var recent, fences0, published0, executed0 := tracker.Recent(), svga.fences, svga.published, svga.executed;
      fence := svga.InsertFence();
      DeviceStream();
      ThrottledKept(presents, recent, svga.hasFence, fences0, published0, executed0, svga.fences, svga.published, svga.executed);
    }

    /** `m_present_tracker.before()` and the `SyncToFence` on it. */
    method WaitForOldest()
      requires Valid()
      modifies svga`stop, svga`fenceReg, svga`executed, svga`consumed
      ensures Valid() && svga.executed >= old(svga.executed) && RoomForOne()
    {
      hide Throttled, AllExecuted, SVGADevice.Valid, Failed, SVGADevice.Window, SVGADevice.FenceSynced;
      DeviceStream();
      ghost var recent, executed0 := tracker.Recent(), svga.executed;
      var fence := tracker.Before();
      svga.WindowHolds();
      svga.SyncToFence(fence);
      svga.StillFew(executed0);
      ThrottledKept(presents, recent, svga.hasFence, svga.fences, svga.published, executed0,
                    svga.fences, svga.published, svga.executed);
      SyncedTo(presents, recent, svga.hasFence, svga.fences, svga.published, svga.executed);
    }

    /** The same with the bound kept; `words` may also be any other command. */
    method PresentSurface(words: seq<Word>) returns (sent: bool)
      requires Valid() && words != [] && FitsOrRefused(4 * |words|)
      modifies svga`stop, svga`fenceReg, svga`executed, svga`consumed, svga`nextCmd, svga`published, svga`fences,
               svga`stream, svga`draws, svga`pending, svga`reservedSize, svga`reservedReg, svga`usingBounceBuffer,
               svga.fifo, svga.bounceBuffer
      ensures Valid() && svga.executed >= old(svga.executed) && svga.fences == old(svga.fences)
      ensures sent <==>
                4 * |words| <= BOUNCE_BUFFER_SIZE && 4 * |words| < svga.max - svga.min && old(svga.reservedSize) == 0
      ensures svga.stream == old(svga.stream) + if sent then words else []
      ensures svga.reservedSize == old(svga.reservedSize)
    {
      hide Throttled, SVGADevice.Valid, Failed;
      DeviceStream();
      ghost var recent, fences0, published0, executed0 := tracker.Recent(), svga.fences, svga.published, svga.executed;
      sent := SendPresent(words);
      DeviceStream();
      svga.StillFew(executed0);
      ThrottledKept(presents, recent, svga.hasFence, fences0, published0, executed0, fences0, svga.published, svga.executed);
    }

    /** `m_present_tracker.after(InsertFence())`, for the present that was just committed. */
    method MarkPresent()
      requires Valid() && RoomForOne() && svga.reservedSize == 0
      modifies this`presents, svga`stop, svga`fenceReg, svga`executed, svga`consumed, svga`nextCmd, svga`published,
               svga`fences, svga`stream, svga`draws, svga`pending, svga`reservedSize, svga`reservedReg,
               svga`nextFence, svga`usingBounceBuffer, svga.fifo, svga.bounceBuffer, tracker`counter, tracker.fences
      ensures Valid() && svga.executed >= old(svga.executed) && old(svga.stream) <= svga.stream && svga.reservedSize == 0
      ensures presents == old(presents) + [Marked(|old(svga.stream)|, |old(svga.fences)|)]
    {
      hide Throttled, SVGADevice.Valid, Failed;
      DeviceStream();
      ghost var recent, fences0, published0, executed0 := tracker.Recent(), svga.fences, svga.published, svga.executed;
      ghost var p := Marked(published0, |fences0|);
      var f := svga.InsertFence();
      DeviceStream();
      tracker.After(f);
      presents := presents + [p];
      ThrottledStep(old(presents), recent, p, f, svga.hasFence, fences0, svga.fences, published0, svga.published,
                    executed0, svga.executed);
    }

    /** `surfacePresentAutoSync`, as far as the FIFO sees it; `words` is the present command. */
    method SurfacePresentAutoSync(words: seq<Word>) returns (presented: bool)
      requires Valid() && words != [] && FitsOrRefused(4 * |words|)
      modifies this`presents, svga`stop, svga`fenceReg, svga`executed, svga`consumed, svga`nextCmd, svga`published,
               svga`fences, svga`stream, svga`draws, svga`pending, svga`reservedSize, svga`reservedReg,
               svga`nextFence, svga`usingBounceBuffer, svga.fifo, svga.bounceBuffer, tracker`counter, tracker.fences
      ensures Valid() && svga.executed >= old(svga.executed) && svga.reservedSize == old(svga.reservedSize)
      ensures presented <==>
                4 * |words| <= BOUNCE_BUFFER_SIZE && 4 * |words| < svga.max - svga.min && old(svga.reservedSize) == 0
      ensures !presented ==> presents == old(presents) && svga.stream == old(svga.stream)
      ensures presented ==>
                && presents == old(presents) + [Marked(|old(svga.stream)| + |words|, |old(svga.fences)|)]
                && old(svga.stream) + words <= svga.stream
    {
      hide Throttled, Valid, SVGADevice.Valid;
      WaitForOldest();
      presented := PresentSurface(words);
      if presented {
        MarkPresent();
      }
    }

    /** Presents one after the other, with other fences in between, for as long as one likes: never more than N
        are outstanding. */
    method PresentAll(commands: seq<seq<Word>>, others: seq<nat>)
      requires Valid() && svga.reservedSize == 0 && |others| == |commands|
      requires forall i | 0 <= i < |commands| :: commands[i] != [] && FitsOrRefused(4 * |commands[i]|)
      modifies this`presents, svga`stop, svga`fenceReg, svga`executed, svga`consumed, svga`nextCmd, svga`published,
               svga`fences, svga`stream, svga`draws, svga`pending, svga`reservedSize, svga`reservedReg,
               svga`nextFence, svga`usingBounceBuffer, svga.fifo, svga.bounceBuffer, tracker`counter, tracker.fences
      ensures Valid() && old(presents) <= presents && Outstanding(presents, svga.executed) <= tracker.N
    {
      hide Throttled, Valid, SVGADevice.Valid, Failed, Outstanding;
      for i := 0 to |commands|
        invariant Valid() && svga.reservedSize == 0 && old(presents) <= presents
      {
        for j := 0 to others[i]
          invariant Valid() && svga.reservedSize == 0 && old(presents) <= presents
        {
          var _ := OtherFence();
        }
        var _ := SurfacePresentAutoSync(commands[i]);
      }
      AtMostNOutstanding();
    }

    lemma DeviceStream()
      requires svga.Valid()
      ensures svga.published == |svga.stream| && svga.executed <= svga.published
    {
    }
  }

  /** Waiting for the oldest fence in the tracker leaves room for one more present. */
  lemma SyncedTo(presents: seq<Present>, recent: seq<Word>, hasFence: bool, fences: seq<Fence>, published: nat, executed: nat)
    requires Throttled(presents, recent, hasFence, fences, published, executed) && |recent| > 0
    requires recent[0] != 0 && hasFence ==> AllExecuted(fences, recent[0], executed)
    requires recent[0] != 0 && !hasFence ==> executed == published
    ensures forall i: nat | i + |recent| - 1 < |presents| :: presents[i].end <= executed
  {
    if |presents| >= |recent| {
      var p := presents[|presents| - |recent|];
      assert MarkedBy(presents[|presents| + 0 - |recent|], recent[0], hasFence, fences, published);
      assert p.end <= executed;
    }
  }

  lemma ThrottledStep(presents: seq<Present>, recent: seq<Word>, p: Present, f: Word, hasFence: bool,
                      fences: seq<Fence>, fences': seq<Fence>, published: nat, published': nat, executed: nat, executed': nat)
    requires Throttled(presents, recent, hasFence, fences, published, executed) && |recent| > 0
    requires fences <= fences' && published <= published' && executed <= executed'
    requires forall i: nat | i + |recent| - 1 < |presents| :: presents[i].end <= executed
    requires MarkedBy(p, f, hasFence, fences', published')
    ensures Throttled(presents + [p], recent[1..] + [f], hasFence, fences', published', executed')
  {
    ThrottledKept(presents, recent, hasFence, fences, published, executed, fences', published', executed');
    var presents', recent' := presents + [p], recent[1..] + [f];
    forall j: nat | j < |recent'|
      ensures if |presents'| + j < |recent'| then recent'[j] == 0
              else MarkedBy(presents'[|presents'| + j - |recent'|], recent'[j], hasFence, fences', published')
    {
      if j + 1 < |recent| {
        assert recent'[j] == recent[j + 1];
        assert |presents| + (j + 1) >= |recent| ==>
                 MarkedBy(presents[|presents| + (j + 1) - |recent|], recent[j + 1], hasFence, fences', published');
      }
    }
  }
}
