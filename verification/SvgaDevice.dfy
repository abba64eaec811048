/** The command FIFO: one guest that writes, one device that reads at its own pace.

    The device is part of the model. Wherever the source touches memory or registers that the device can
    change, the methods first let it run for an arbitrary while (`HostRuns`). */
module SvgaDevice {
  import opened Words
  import opened FifoRing
  import opened Fences

  const BOUNCE_BUFFER_SIZE: nat := 0x10000
  const SVGA_CMD_FENCE: Word := 30
  const SVGA_FIFO_NUM_REGS: nat := 291
  /** The device header asks for at least 10 KB between MIN and MAX. */
  const MIN_FIFO_SIZE: nat := 10240

  datatype Place = NoPlace | InRing | InBounce

  class SVGADevice {
    // FIFO registers, in bytes, and the memory behind them, in words
    var min: nat
    var max: nat
    var nextCmd: nat
    var stop: nat
    var reservedReg: nat
    var fenceReg: Word
    var fifo: array<Word>
    // capabilities
    const reservable: bool
    const hasFence: bool
    // the driver's own state
    var bounceBuffer: array<Word>
    var usingBounceBuffer: bool
    var reservedSize: nat
    var nextFence: Word
    // the device's side: words it has been given, has executed, and has taken out of the ring
    var published: nat
    var executed: nat
    var consumed: nat
    var fences: seq<Fence>
    ghost var stream: seq<Word>
    // fences drawn from the counter that are accounted for, and whether one more is on its way
    var draws: nat
    ghost var pending: bool
    // what stood in the FIFO memory before and behind the ring; the first words are the registers
    ghost const registers: seq<Word>
    ghost const behind: seq<Word>

    ghost predicate Shape()
      reads this
    {
      && fifo != bounceBuffer && 4 * bounceBuffer.Length == BOUNCE_BUFFER_SIZE
      && min % 4 == 0 && max % 4 == 0 && nextCmd % 4 == 0 && stop % 4 == 0
      && min + MIN_FIFO_SIZE <= max <= 4 * fifo.Length && max < WORD_LIMIT
    }

    ghost predicate DeviceOk()
      reads this
    {
      && consumed <= executed <= published == |stream|
      && FencesOk(fences, published, draws) && CounterAt(nextFence, if pending then draws + 1 else draws)
      && fenceReg == Register(fences, executed)
      && AllFenceWords(stream, fences)
    }

    /** Nothing was ever stored outside the ring. */
    ghost predicate Framed()
      reads this, fifo
    {
      && min / 4 == |registers| && max / 4 + |behind| == fifo.Length
      && Outside(fifo[..], min / 4, max / 4, registers, behind)
    }

    ghost predicate Valid()
      reads this, fifo, bounceBuffer
    {
      && Shape() && DeviceOk() && Framed()
      && QueueOk(fifo[..], min / 4, max / 4, stop / 4, nextCmd / 4, stream, consumed)
      && reservedSize % 4 == 0 && (reservedSize > 0 ==> HasRoom(reservedSize))
      && (reservedSize > 0 && !usingBounceBuffer ==> nextCmd + reservedSize <= max)
      && (reservedSize > 0 && usingBounceBuffer ==> reservedSize <= BOUNCE_BUFFER_SIZE)
      && (reservedSize > 0 && !usingBounceBuffer && reservable ==> reservedReg == reservedSize)
    }

    /** The ring is still not full with `bytes` more. */
    ghost predicate HasRoom(bytes: nat)
      reads this
    {
      4 * (published - consumed) + bytes < max - min
    }

    /** What the client has put into its reservation so far. */
    ghost function Draft(): (d: seq<Word>)
      requires Valid() && reservedSize > 0
      reads this, fifo, bounceBuffer
      ensures |d| == reservedSize / 4
    {
      if usingBounceBuffer then bounceBuffer[..reservedSize / 4]
      else fifo[nextCmd / 4..(nextCmd + reservedSize) / 4]
    }

    /** `Init` and `FIFOInit` on a device whose FIFO memory is `memory`. */
    constructor (memory: array<Word>, fifoSize: nat, canReserve: bool, canFence: bool)
      requires fifoSize % 4 == 0 && 4 * SVGA_FIFO_NUM_REGS + MIN_FIFO_SIZE <= fifoSize <= 4 * memory.Length
      requires fifoSize < WORD_LIMIT
      ensures Valid() && stream == [] && reservedSize == 0 && fences == [] && draws == 0 && !pending && fresh(bounceBuffer)
      ensures fifo == memory && reservable == canReserve && hasFence == canFence && nextFence == 1
      ensures min == nextCmd == stop == 4 * 291 && max == fifoSize
      ensures registers == memory[..291] && behind == memory[fifoSize / 4..]
    {
      fifo, reservable, hasFence := memory, canReserve, canFence;
      nextFence := 1;
      min, max := 4 * SVGA_FIFO_NUM_REGS, fifoSize;
      nextCmd, stop := 4 * SVGA_FIFO_NUM_REGS, 4 * SVGA_FIFO_NUM_REGS;
      reservedReg, fenceReg := 0, 0;
      bounceBuffer := new Word[BOUNCE_BUFFER_SIZE / 4];
      reservedSize, usingBounceBuffer := 0, false;
      published, executed, consumed, fences := 0, 0, 0, [];
      stream, draws, pending := [], 0, false;
      registers, behind := memory[..SVGA_FIFO_NUM_REGS], memory[fifoSize / 4..];
    }

    /** `FIFOReserve`. A request is refused for its size, its alignment or an open reservation; any other
        is granted as soon as the ring would still not be full with it. The wait ends because the device
        keeps taking words out; only a request for the whole ring would wait for ever. */
    method FIFOReserve(bytes: nat) returns (place: Place)
      requires Valid() && (bytes == max - min ==> bytes > BOUNCE_BUFFER_SIZE || reservedSize != 0)
      modifies this`stop, this`fenceReg, this`executed, this`consumed, this`reservedSize, this`usingBounceBuffer,
               this`reservedReg
      ensures Valid() && executed >= old(executed) && consumed >= old(consumed)
      ensures place == NoPlace <==> bytes > BOUNCE_BUFFER_SIZE || bytes > max - min || bytes % 4 != 0 || old(reservedSize) != 0
      ensures place == NoPlace ==> reservedSize == old(reservedSize) && usingBounceBuffer == old(usingBounceBuffer)
      ensures place != NoPlace ==>
                && reservedSize == bytes && 4 * (published - consumed) + bytes < max - min
                && usingBounceBuffer == (place == InBounce)
                && (place == InRing <==> nextCmd + bytes <= max && (reservable || bytes <= 4))
      ensures reservedReg == if place == InRing && reservable then bytes else old(reservedReg)
    {
      hide Outside, FencesOk, Register, AllFenceWords, CounterAt, QueueOk;
      if bytes > BOUNCE_BUFFER_SIZE || bytes > max - min {
        return NoPlace;
      }
      if bytes % 4 != 0 {
        return NoPlace;
      }
      if reservedSize != 0 {
        return NoPlace;
      }
      place := NoPlace;
      while place == NoPlace
        invariant Valid() && executed >= old(executed) && consumed >= old(consumed)
        invariant if place == NoPlace then reservedSize == 0 else Granted(bytes, place)
        invariant reservedReg == if place == InRing && reservable then bytes else old(reservedReg)
        decreases if place == NoPlace then published - consumed + 1 else 0
      {
        place := TryReserve(bytes);
      }
    }

    ghost predicate Granted(bytes: nat, place: Place)
      reads this
    {
      && place != NoPlace && reservedSize == bytes && usingBounceBuffer == (place == InBounce) && HasRoom(bytes)
      && (place == InRing <==> nextCmd + bytes <= max && (reservable || bytes <= 4))
    }

    /** The tests of `FIFOReserve` on the STOP that the device shows at the moment. When they find no
        room they make the device take something. */
    method FindRoom(bytes: nat) returns (reserveInPlace: bool, needBounce: bool)
      requires Valid() && reservedSize == 0 && bytes < max - min
      modifies this`stop, this`fenceReg, this`executed, this`consumed
      ensures Valid() && executed >= old(executed) && consumed >= old(consumed)
      ensures reserveInPlace || needBounce ==> HasRoom(bytes)
      ensures reserveInPlace ==> nextCmd + bytes <= max && !needBounce
      ensures needBounce ==> nextCmd + bytes > max
      ensures !reserveInPlace && !needBounce ==> consumed > old(consumed)
    {
      hide Outside, FencesOk, Register, AllFenceWords, CounterAt, QueueOk;
      HostRuns();
      RingBounds(fifo[..], min / 4, max / 4, stop / 4, nextCmd / 4, stream, consumed);
      ReserveTestMeaning(min, max, nextCmd, stop, bytes);
      reserveInPlace, needBounce := false, false;
      if nextCmd >= stop {
        if nextCmd + bytes < max || (nextCmd + bytes == max && stop > min) {
          reserveInPlace := true;
        } else if (max - nextCmd) + (stop - min) <= bytes {
          FIFOFull();
        } else {
          needBounce := true;
        }
      } else {
        if nextCmd + bytes < stop {
          reserveInPlace := true;
        } else {
          FIFOFull();
        }
      }
    }

    /** One turn of the wait in `FIFOReserve`. */
    method TryReserve(bytes: nat) returns (place: Place)
      requires Valid() && reservedSize == 0 && bytes < max - min && bytes % 4 == 0 && bytes <= BOUNCE_BUFFER_SIZE
      modifies this`stop, this`fenceReg, this`executed, this`consumed, this`reservedSize, this`usingBounceBuffer,
               this`reservedReg
      ensures Valid() && executed >= old(executed) && consumed >= old(consumed)
      ensures if place == NoPlace then reservedSize == 0 && consumed > old(consumed) else Granted(bytes, place)
      ensures reservedReg == if place == InRing && reservable then bytes else old(reservedReg)
    {
      hide Outside, FencesOk, Register, AllFenceWords, CounterAt, QueueOk;
      var reserveInPlace, needBounce := FindRoom(bytes);
      if reserveInPlace {
        if reservable || bytes <= 4 {
          usingBounceBuffer := false;
          if reservable {
            reservedReg := bytes;
          }
          reservedSize := bytes;
          return InRing;
        } else {
          needBounce := true;
        }
      }
      if needBounce {
        usingBounceBuffer := true;
        reservedSize := bytes;
        return InBounce;
      }
      return NoPlace;
    }

    /** The client fills its reservation, wherever it lies. */
    method WriteReserved(i: nat, v: Word)
      requires Valid() && 4 * i < reservedSize
      modifies this`stop, this`fenceReg, this`executed, this`consumed, fifo, bounceBuffer
      ensures Valid() && executed >= old(executed) && consumed >= old(consumed)
      ensures Draft() == old(Draft())[i := v]
      ensures usingBounceBuffer ==> fifo[..] == old(fifo[..]) && bounceBuffer[..] == old(bounceBuffer[..])[i := v]
      ensures !usingBounceBuffer ==> bounceBuffer[..] == old(bounceBuffer[..]) && nextCmd / 4 + i < fifo.Length
      ensures !usingBounceBuffer ==> fifo[..] == old(fifo[..])[nextCmd / 4 + i := v]
    {
      hide Valid;
      HostRuns();
      if usingBounceBuffer {
        StoreInBounce(i, v);
      } else {
        StoreInRing(i, v);
      }
    }

    method StoreInBounce(i: nat, v: Word)
      requires Valid() && 4 * i < reservedSize && usingBounceBuffer
      modifies bounceBuffer
      ensures Valid() && Draft() == old(Draft())[i := v]
      ensures fifo[..] == old(fifo[..]) && bounceBuffer[..] == old(bounceBuffer[..])[i := v]
    {
      hide Outside, FencesOk, Register, AllFenceWords, CounterAt, QueueOk, DeviceOk;
      bounceBuffer[i] := v;
    }

    method StoreInRing(i: nat, v: Word)
      requires Valid() && 4 * i < reservedSize && !usingBounceBuffer
      modifies fifo
      ensures Valid() && Draft() == old(Draft())[i := v]
      ensures bounceBuffer[..] == old(bounceBuffer[..]) && nextCmd / 4 + i < fifo.Length
      ensures fifo[..] == old(fifo[..])[nextCmd / 4 + i := v]
    {
      hide Valid;
      ghost var mem := fifo[..];
      PutInRing(i, v);
      SliceUpdate(mem, nextCmd / 4, (nextCmd + reservedSize) / 4, i, v);
    }

    method PutInRing(i: nat, v: Word)
      requires Valid() && 4 * i < reservedSize && !usingBounceBuffer
      modifies fifo
      ensures Valid() && nextCmd / 4 + i < (nextCmd + reservedSize) / 4 <= fifo.Length
      ensures bounceBuffer[..] == old(bounceBuffer[..]) && fifo[..] == old(fifo[..])[nextCmd / 4 + i := v]
    {
      hide Outside, FencesOk, Register, AllFenceWords, CounterAt, QueueOk, DeviceOk;
      ghost var mem := fifo[..];
      assert |stream| == published && consumed <= published by { DeviceFacts(); }
      QueueStore(mem, min / 4, max / 4, stop / 4, nextCmd / 4, stream, consumed, i, v);
      RingBounds(mem, min / 4, max / 4, stop / 4, nextCmd / 4, stream, consumed);
      fifo[nextCmd / 4 + i] := v;
      assert fifo[..] == mem[nextCmd / 4 + i := v];
      OutsideKept(mem, fifo[..], min / 4, max / 4, registers, behind);
    }

    lemma DeviceFacts()
      requires DeviceOk()
      ensures consumed <= executed <= published == |stream|
    {
    }

    /** Writing NEXT_CMD: the words `w`, already stored behind the queue, become visible to the device. If
        they complete the fence command that is on its way, the stream now has that fence. */
    method Publish(newNext: nat, n: nat, ghost w: seq<Word>, fence: bool)
      requires Valid() && reservedSize == 0 && n == |w| && HasRoom(4 * n)
      requires newNext == 4 * Pos(min / 4, max / 4, nextCmd / 4, n)
      requires Stored(fifo[..], min / 4, max / 4, nextCmd / 4, w, n)
      requires fence ==> pending && EndsInFence(stream + w, draws) && n > 0
      requires fence ==> forall i: nat | i < |fences| :: fences[i].end + 2 <= published + n
      modifies this`nextCmd, this`published, this`fences, this`stream, this`draws, this`pending
      ensures Valid() && stream == old(stream) + w && nextCmd == newNext
      ensures pending == (old(pending) && !fence) && draws == old(draws) + if fence then 1 else 0
      ensures fences == old(fences) + if fence then [Fence(|stream|, old(draws))] else []
    {
      hide Register, CounterAt, QueueOk, Pos, FencesOk, AllFenceWords;
      RingBounds(fifo[..], min / 4, max / 4, stop / 4, nextCmd / 4, stream, consumed);
      QueuePublish(fifo[..], min / 4, max / 4, stop / 4, nextCmd / 4, stream, consumed, w);
      FencesGrow(fences, published, published + n, draws, draws);
      FenceWordsGrow(stream, w, fences, Fence(published + n, draws));
      nextCmd := newNext;
      published := published + n;
      stream := stream + w;
      if fence {
        FenceAppendedAt(fences, published, draws);
        RegisterAppended(fences, Fence(published, draws), executed);
        fences := fences + [Fence(published, draws)];
        draws := draws + 1;
        pending := false;
      }
    }

    /** `memcpy` of the next `n` words of the bounce buffer to the ring behind the queue. The device has been told
        that there will be words that far behind NEXT_CMD. */
    method CopyBehind(to: nat, base: nat, n: nat)
      requires Valid() && reservedSize == 0 && HasRoom(4 * (base + n)) && base + n <= bounceBuffer.Length
      requires n > 0 ==> to == Pos(min / 4, max / 4, nextCmd / 4, base) && to + n <= max / 4
      requires Stored(fifo[..], min / 4, max / 4, nextCmd / 4, bounceBuffer[..], base)
      requires 4 * (base + n) <= reservedReg
      modifies fifo
      ensures Valid()
      ensures Stored(fifo[..], min / 4, max / 4, nextCmd / 4, bounceBuffer[..], base + n)
    {
      ghost var mem, buf := fifo[..], bounceBuffer[..];
      hide Outside, FencesOk, Register, AllFenceWords, CounterAt, QueueOk, Stored;
      RingBounds(mem, min / 4, max / 4, stop / 4, nextCmd / 4, stream, consumed);
      if n > 0 {
        forall i | 0 <= i < n {
          fifo[to + i] := bounceBuffer[base + i];
        }
      }
      OutsideKept(mem, fifo[..], min / 4, max / 4, registers, behind);
      QueueCopied(mem, fifo[..], min / 4, max / 4, stop / 4, nextCmd / 4, stream, consumed, to, base, n);
      StoredMore(mem, fifo[..], min / 4, max / 4, nextCmd / 4, buf, to, base, n);
    }

    /** The two chunks of `FIFOCommit`: up to the end of the ring, and the rest from its beginning. */
    method CopyWrapped(bytes: nat)
      requires Valid() && reservedSize == 0 && bytes % 4 == 0 && bytes <= BOUNCE_BUFFER_SIZE && HasRoom(bytes)
      requires bytes <= reservedReg
      modifies this`stop, this`fenceReg, this`executed, this`consumed, fifo
      ensures Valid() && executed >= old(executed) && consumed >= old(consumed)
      ensures Stored(fifo[..], min / 4, max / 4, nextCmd / 4, bounceBuffer[..], bytes / 4)
    {
      hide Valid, Shape, DeviceOk, Stored;
      RingFacts();
      var chunkSize := max - nextCmd;
      if bytes < chunkSize {
        chunkSize := bytes;
      }
      CopyBehind(nextCmd / 4, 0, chunkSize / 4);
      HostRuns();
      CopyBehind(min / 4, chunkSize / 4, (bytes - chunkSize) / 4);
    }

    lemma RingFacts()
      requires Valid()
      ensures min % 4 == 0 && max % 4 == 0 && nextCmd % 4 == 0 && min <= nextCmd < max <= 4 * fifo.Length
      ensures 4 * bounceBuffer.Length == BOUNCE_BUFFER_SIZE && consumed <= published
      ensures Stored(fifo[..], min / 4, max / 4, nextCmd / 4, bounceBuffer[..], 0)
    {
      hide Outside, FencesOk, Register, AllFenceWords, CounterAt, QueueOk;
      RingBounds(fifo[..], min / 4, max / 4, stop / 4, nextCmd / 4, stream, consumed);
    }

    /** The loop of `FIFOCommit` that hands over dword by dword. The device may run between any two. */
    method CommitDwords(bytes: nat, fence: bool)
      requires Valid() && reservedSize == 0 && bytes % 4 == 0 && bytes <= BOUNCE_BUFFER_SIZE && HasRoom(bytes)
      requires fence ==> FenceCommand(bounceBuffer[..bytes / 4])
      modifies this`stop, this`fenceReg, this`executed, this`consumed, this`nextCmd, this`published, this`fences,
               this`stream, this`draws, this`pending, fifo
      ensures Valid() && executed >= old(executed) && consumed >= old(consumed)
      ensures stream == old(stream) + bounceBuffer[..bytes / 4]
      ensures pending == (old(pending) && !fence) && draws == old(draws) + if fence then 1 else 0
      ensures fences == old(fences) + if fence then [Fence(|stream|, old(draws))] else []
    {
      hide Outside, FencesOk, Register, AllFenceWords, CounterAt, QueueOk, Pos;
      FencesBounded(fences, published, draws);
      var left, dword := bytes, 0;
      while left > 0
        invariant left % 4 == 0 && left + 4 * dword == bytes
        invariant Valid() && executed >= old(executed) && consumed >= old(consumed) && HasRoom(left)
        invariant stream == old(stream) + bounceBuffer[..dword]
        invariant left > 0 || !fence ==> pending == old(pending) && draws == old(draws) && fences == old(fences)
        invariant left == 0 && fence ==>
                    !pending && draws == old(draws) + 1 && fences == old(fences) + [Fence(|stream|, old(draws))]
      {
        assert bounceBuffer[..dword + 1] == bounceBuffer[..dword] + [bounceBuffer[dword]];
        assert stream + [bounceBuffer[dword]] == old(stream) + bounceBuffer[..dword + 1];
        CommitDword(bounceBuffer[dword], fence && left == 4);
        dword := dword + 1;
        left := left - 4;
      }
    }

    /** One turn of that loop. */
    method CommitDword(v: Word, fence: bool)
      requires Valid() && reservedSize == 0 && HasRoom(4)
      requires fence ==> pending && EndsInFence(stream + [v], draws)
      requires fence ==> forall i: nat | i < |fences| :: fences[i].end + 2 <= published + 1
      modifies this`stop, this`fenceReg, this`executed, this`consumed, this`nextCmd, this`published, this`fences,
               this`stream, this`draws, this`pending, fifo
      ensures Valid() && executed >= old(executed) && consumed >= old(consumed)
      ensures stream == old(stream) + [v] && published == old(published) + 1
      ensures pending == (old(pending) && !fence) && draws == old(draws) + if fence then 1 else 0
      ensures fences == old(fences) + if fence then [Fence(|stream|, old(draws))] else []
    {
      hide Outside, FencesOk, Register, AllFenceWords, CounterAt, QueueOk, Pos, Stored, FenceWords;
      HostRuns();
      RingBounds(fifo[..], min / 4, max / 4, stop / 4, nextCmd / 4, stream, consumed);
      StoreNext(v);
      var next := nextCmd + 4;
      if next == max {
        next := min;
      }
      NextPos(min, max, nextCmd, next);
      Publish(next, 1, [v], fence);
    }

    method StoreNext(v: Word)
      requires Valid() && reservedSize == 0 && HasRoom(4)
      modifies fifo
      ensures Valid() && Stored(fifo[..], min / 4, max / 4, nextCmd / 4, [v], 1)
    {
      hide Outside, FencesOk, Register, AllFenceWords, CounterAt, QueueOk;
      ghost var mem := fifo[..];
      RingBounds(mem, min / 4, max / 4, stop / 4, nextCmd / 4, stream, consumed);
      QueueStore(mem, min / 4, max / 4, stop / 4, nextCmd / 4, stream, consumed, 0, v);
      fifo[nextCmd / 4] := v;
      assert fifo[..] == mem[nextCmd / 4 := v];
      OutsideKept(mem, fifo[..], min / 4, max / 4, registers, behind);
    }

    /** `w` is the fence command that is on its way. */
    ghost predicate FenceCommand(w: seq<Word>)
      reads this
    {
      pending && w == [SVGA_CMD_FENCE, Value(draws)]
    }

    method StartCommit()
      requires Valid()
      modifies this`reservedSize
      ensures Valid() && reservedSize == 0
    {
      hide Outside, FencesOk, Register, AllFenceWords, CounterAt, QueueOk;
      reservedSize := 0;
    }

    /** The end of `FIFOCommit` for the two ways that hand over everything at once. */
    method PublishAll(bytes: nat, fence: bool, ghost w: seq<Word>)
      requires Valid() && reservedSize == 0 && bytes % 4 == 0 && HasRoom(bytes)
      requires Stored(fifo[..], min / 4, max / 4, nextCmd / 4, w, bytes / 4) && |w| == bytes / 4
      requires fence ==> FenceCommand(w)
      modifies this`stop, this`fenceReg, this`executed, this`consumed, this`nextCmd, this`published, this`fences,
               this`stream, this`draws, this`pending
      ensures Valid() && executed >= old(executed) && consumed >= old(consumed) && stream == old(stream) + w
      ensures pending == (old(pending) && !fence) && draws == old(draws) + if fence then 1 else 0
      ensures fences == old(fences) + if fence then [Fence(|stream|, old(draws))] else []
    {
      hide Outside, FencesOk, Register, AllFenceWords, CounterAt, QueueOk, Pos, Stored;
      HostRuns();
      RingBounds(fifo[..], min / 4, max / 4, stop / 4, nextCmd / 4, stream, consumed);
      FencesBounded(fences, published, draws);
      var next := nextCmd + bytes;
      if next >= max {
        next := next - (max - min);
      }
      NextPosBytes(min, max, nextCmd, next, bytes);
      Publish(next, bytes / 4, w, fence);
    }

    /** `FIFOCommit` where the words are already in the ring, or can be copied there before any is seen. */
    method CommitWhole(bytes: nat, fence: bool)
      requires Valid() && reservedSize > 0 && bytes % 4 == 0 && bytes <= reservedSize
      requires fence ==> FenceCommand(Draft()[..bytes / 4])
      modifies this`stop, this`fenceReg, this`executed, this`consumed, this`nextCmd, this`published, this`fences,
               this`stream, this`draws, this`pending, this`reservedSize, this`reservedReg, fifo
      ensures Valid() && executed >= old(executed) && consumed >= old(consumed)
      ensures reservedSize == 0 && stream == old(stream) + old(Draft())[..bytes / 4]
      ensures !usingBounceBuffer ==> reservedReg == old(reservedReg)
      ensures pending == (old(pending) && !fence) && draws == old(draws) + if fence then 1 else 0
      ensures fences == old(fences) + if fence then [Fence(|stream|, old(draws))] else []
    {
      hide Outside, FencesOk, Register, AllFenceWords, CounterAt, QueueOk, Pos, Stored, Valid, Draft;
      ghost var w := Gather(bytes);
      PublishAll(bytes, fence, w);
    }

    /** Closes the reservation and brings its words to where NEXT_CMD will pass over them. */
    method Gather(bytes: nat) returns (ghost w: seq<Word>)
      requires Valid() && reservedSize > 0 && bytes % 4 == 0 && bytes <= reservedSize
      modifies this`stop, this`fenceReg, this`executed, this`consumed, this`reservedSize, this`reservedReg, fifo
      ensures Valid() && executed >= old(executed) && consumed >= old(consumed)
      ensures reservedSize == 0 && HasRoom(bytes) && w == old(Draft())[..bytes / 4]
      ensures !usingBounceBuffer ==> reservedReg == old(reservedReg)
      ensures Stored(fifo[..], min / 4, max / 4, nextCmd / 4, w, bytes / 4)
    {
      hide Outside, FencesOk, Register, AllFenceWords, CounterAt, QueueOk, Pos, Stored, Valid;
      w := Draft()[..bytes / 4];
      if usingBounceBuffer {
        GatherBounced(bytes);
      } else {
        GatherInPlace(bytes);
      }
    }

    method GatherBounced(bytes: nat)
      requires Valid() && reservedSize > 0 && bytes % 4 == 0 && bytes <= reservedSize && usingBounceBuffer
      modifies this`stop, this`fenceReg, this`executed, this`consumed, this`reservedSize, this`reservedReg, fifo
      ensures Valid() && executed >= old(executed) && consumed >= old(consumed)
      ensures reservedSize == 0 && HasRoom(bytes)
      ensures Stored(fifo[..], min / 4, max / 4, nextCmd / 4, old(Draft())[..bytes / 4], bytes / 4)
    {
      hide Outside, FencesOk, Register, AllFenceWords, CounterAt, QueueOk, Pos, Stored;
      ghost var r := reservedSize / 4;
      StartCommit();
      reservedReg := bytes;
      CopyWrapped(bytes);
      StoredPrefix(fifo[..], min / 4, max / 4, nextCmd / 4, bounceBuffer[..], r, bytes / 4);
    }

    method GatherInPlace(bytes: nat)
      requires Valid() && reservedSize > 0 && bytes % 4 == 0 && bytes <= reservedSize && !usingBounceBuffer
      modifies this`reservedSize
      ensures Valid() && reservedSize == 0 && HasRoom(bytes)
      ensures Stored(fifo[..], min / 4, max / 4, nextCmd / 4, old(Draft())[..bytes / 4], bytes / 4)
    {
      hide Outside, FencesOk, Register, AllFenceWords, CounterAt, QueueOk, Pos, Stored;
      RingBounds(fifo[..], min / 4, max / 4, stop / 4, nextCmd / 4, stream, consumed);
      StoredInPlace(fifo[..], min / 4, max / 4, nextCmd / 4, (nextCmd + reservedSize) / 4, bytes / 4);
      StartCommit();
    }

    /** `FIFOCommit` where the words go from the bounce buffer into the ring one by one. */
    method CommitBounced(bytes: nat, fence: bool)
      requires Valid() && reservedSize > 0 && bytes % 4 == 0 && bytes <= reservedSize && usingBounceBuffer
      requires fence ==> FenceCommand(Draft()[..bytes / 4])
      modifies this`stop, this`fenceReg, this`executed, this`consumed, this`nextCmd, this`published, this`fences,
               this`stream, this`draws, this`pending, this`reservedSize, fifo
      ensures Valid() && executed >= old(executed) && consumed >= old(consumed)
      ensures reservedSize == 0 && stream == old(stream) + old(Draft())[..bytes / 4]
      ensures pending == (old(pending) && !fence) && draws == old(draws) + if fence then 1 else 0
      ensures fences == old(fences) + if fence then [Fence(|stream|, old(draws))] else []
    {
      hide Outside, FencesOk, Register, AllFenceWords, CounterAt, QueueOk, Pos, Stored;
      assert Draft()[..bytes / 4] == bounceBuffer[..bytes / 4];
      StartCommit();
      CommitDwords(bytes, fence);
    }

    /** `FIFOCommit`, by any of its three ways: what the client wrote into its reservation, up to `bytes`,
        is appended to the stream of commands, and nothing else changes. */
    method FIFOCommit(bytes: nat, fence: bool)
      requires Valid() && (reservedSize != 0 && bytes % 4 == 0 ==> bytes <= reservedSize)
      requires fence ==> reservedSize == 8 == bytes && FenceCommand(Draft())
      modifies this`stop, this`fenceReg, this`executed, this`consumed, this`nextCmd, this`published, this`fences,
               this`stream, this`draws, this`pending, this`reservedSize, this`reservedReg, fifo
      ensures Valid() && executed >= old(executed) && consumed >= old(consumed)
      ensures old(reservedSize) == 0 || bytes % 4 != 0 ==> stream == old(stream) && reservedSize == old(reservedSize)
      ensures old(reservedSize) != 0 && bytes % 4 == 0 ==>
                reservedSize == 0 && stream == old(stream) + old(Draft())[..bytes / 4]
      ensures reservedReg == if reservable && old(reservedSize) != 0 && bytes % 4 == 0 then 0 else old(reservedReg)
      ensures forall k | 0 <= k < fifo.Length && !(min / 4 <= k < max / 4) :: fifo[k] == old(fifo[k])
      ensures pending == (old(pending) && !fence) && draws == old(draws) + if fence then 1 else 0
      ensures fences == old(fences) + if fence then [Fence(|stream|, old(draws))] else []
    {
      hide Valid, Shape, DeviceOk, Draft, Outside;
      if bytes % 4 != 0 {
        return;
      }
      if reservedSize == 0 {
        return;
      }
      assert fence ==> Draft()[..bytes / 4] == Draft();
      assert Outside(fifo[..], min / 4, max / 4, registers, behind) by { OutsideOfRing(); }
      if usingBounceBuffer && !reservable {
        CommitBounced(bytes, fence);
      } else {
        CommitWhole(bytes, fence);
      }
      if reservable {
        ClearReserved();
      }
      OutsideOfRing();
      OutsideSame(old(fifo[..]), fifo[..], min / 4, max / 4, registers, behind);
    }

    lemma OutsideOfRing()
      requires Valid()
      ensures Outside(fifo[..], min / 4, max / 4, registers, behind)
    {
    }

    method ClearReserved()
      requires Valid() && reservedSize == 0
      modifies this`reservedReg
      ensures Valid() && reservedReg == 0
    {
      hide Outside, FencesOk, Register, AllFenceWords, CounterAt, QueueOk;
      reservedReg := 0;
    }

    /** The device runs: it executes some of what is published and takes some of that out of the ring. */
    method HostRuns()
      requires Valid()
      modifies this`stop, this`fenceReg, this`executed, this`consumed
      ensures Valid() && executed >= old(executed) && consumed >= old(consumed)
    {
      var n: nat :| n <= published - executed;
      var m: nat :| m <= executed + n - consumed;
      Advance(n, m);
    }

    method Advance(n: nat, m: nat)
      requires Valid() && executed + n <= published && consumed + m <= executed + n
      modifies this`stop, this`fenceReg, this`executed, this`consumed
      ensures Valid() && executed == old(executed) + n && consumed == old(consumed) + m
    {
      hide Outside, FencesOk, QueueOk, Register, Pos, AllFenceWords, CounterAt;
      RingBounds(fifo[..], min / 4, max / 4, stop / 4, nextCmd / 4, stream, consumed);
      QueueConsume(fifo[..], min / 4, max / 4, stop / 4, nextCmd / 4, stream, consumed, m);
      executed := executed + n;
      fenceReg := Register(fences, executed);
      consumed := consumed + m;
      stop := 4 * Pos(min / 4, max / 4, stop / 4, m);
    }

    /** Reading BUSY makes the device process commands: some, if any are left. It reads as false only
        when the FIFO is drained. */
    method ReadBusy() returns (busy: bool)
      requires Valid()
      modifies this`stop, this`fenceReg, this`executed, this`consumed
      ensures Valid() && executed >= old(executed) && consumed >= old(consumed)
      ensures old(consumed) < published ==> consumed > old(consumed)
      ensures busy <==> consumed < published
    {
      if consumed < published {
        var n: nat :| consumed < executed + n <= published;
        var m: nat :| 0 < m <= executed + n - consumed;
        Advance(n, m);
      }
      busy := consumed < published;
    }

    /** `FIFOCommitAll`. */
    method FIFOCommitAll(fence: bool)
      requires Valid() && (fence ==> reservedSize == 8 && FenceCommand(Draft()))
      modifies this`stop, this`fenceReg, this`executed, this`consumed, this`nextCmd, this`published, this`fences,
               this`stream, this`draws, this`pending, this`reservedSize, this`reservedReg, fifo
      ensures Valid() && reservedSize == 0 && executed >= old(executed) && consumed >= old(consumed)
      ensures stream == old(stream) + if old(reservedSize) != 0 then old(Draft()) else []
      ensures pending == (old(pending) && !fence) && draws == old(draws) + if fence then 1 else 0
      ensures fences == old(fences) + if fence then [Fence(|stream|, old(draws))] else []
    {
      hide Outside, FencesOk, Register, AllFenceWords, CounterAt, QueueOk;
      assert reservedSize != 0 ==> Draft()[..reservedSize / 4] == Draft();
      FIFOCommit(reservedSize, fence);
    }

    /** `InsertFence`. Without the capability it returns 1; if the command cannot be reserved it returns 0,
        and the number it drew is lost. Otherwise a new fence is at the end of the stream. */
    method InsertFence() returns (fence: Word)
      requires Valid() && !pending
      modifies this`stop, this`fenceReg, this`executed, this`consumed, this`nextCmd, this`published, this`fences,
               this`stream, this`draws, this`pending, this`reservedSize, this`reservedReg, this`nextFence,
               this`usingBounceBuffer, fifo, bounceBuffer
      ensures Valid() && !pending && executed >= old(executed) && consumed >= old(consumed)
      ensures reservedSize == old(reservedSize)
      ensures fence == 0 <==> hasFence && old(reservedSize) != 0
      ensures !hasFence ==> fence == 1
      ensures !hasFence || fence == 0 ==> stream == old(stream) && fences == old(fences)
      ensures draws == old(draws) + if hasFence then 1 else 0
      ensures hasFence && fence == 0 ==> Failed(fences, executed, draws) <= old(Failed(fences, executed, draws)) + 1
      ensures fence != 0 ==> Failed(fences, executed, draws) <= old(Failed(fences, executed, draws))
      ensures hasFence && fence != 0 ==>
                && fence == Value(old(draws))
                && stream == old(stream) + [SVGA_CMD_FENCE, fence]
                && fences == old(fences) + [Fence(|stream|, old(draws))]
    {
      hide Outside, FencesOk, Register, AllFenceWords, QueueOk, Value, Failed;
      if !hasFence {
        return 1;
      }
      CounterStep(nextFence, draws);
      if nextFence == 0 {
        nextFence := 1;
      }
      fence := nextFence;
      nextFence := (nextFence + 1) % WORD_LIMIT;
      pending := true;
      ghost var fences0, draws0, executed0, length := fences, draws, executed, |stream|;
      assert executed0 <= length by { DeviceFacts(); }
      var sent := SendFence(fence);
      FenceCounted(fences0, draws0, executed0, sent);
      if !sent {
        fence := 0;
      }
    }

    lemma FenceCounted(fences0: seq<Fence>, draws0: nat, executed0: nat, sent: bool)
      requires Valid() && draws == draws0 + 1 && executed0 <= executed
      requires fences == fences0 + if sent then [Fence(|stream|, draws0)] else []
      requires sent ==> executed0 < |stream|
      ensures Failed(fences, executed, draws) <= Failed(fences0, executed0, draws0) + if sent then 0 else 1
    {
      hide Outside, FencesOk, Register, AllFenceWords, QueueOk;
      if sent {
        FailedAppended(fences0, published, draws0, executed0, |stream|, executed);
      } else {
        assert fences == fences0;
        FailedKept(fences, published, draws, executed0, executed);
      }
    }

    /** The part of `InsertFence` that puts the command into the FIFO. */
    method SendFence(fence: Word) returns (sent: bool)
      requires Valid() && pending && fence == Value(draws)
      modifies this`stop, this`fenceReg, this`executed, this`consumed, this`nextCmd, this`published, this`fences,
               this`stream, this`draws, this`pending, this`reservedSize, this`reservedReg,
               this`usingBounceBuffer, fifo, bounceBuffer
      ensures Valid() && !pending && executed >= old(executed) && consumed >= old(consumed)
      ensures reservedSize == old(reservedSize) && draws == old(draws) + 1
      ensures sent <==> old(reservedSize) == 0
      ensures !sent ==> stream == old(stream) && fences == old(fences)
      ensures sent ==>
                && stream == old(stream) + [SVGA_CMD_FENCE, fence]
                && fences == old(fences) + [Fence(|stream|, old(draws))]
    {
      hide Outside, FencesOk, Register, AllFenceWords, QueueOk, Value, CounterAt;
      var place := FIFOReserve(8);
      if place == NoPlace {
        FencesGrow(fences, published, published, draws, draws + 1);
        draws, pending := draws + 1, false;
        return false;
      }
      WriteFence(fence);
      FIFOCommitAll(true);
      sent := true;
    }

    method WriteFence(fence: Word)
      requires Valid() && reservedSize == 8
      modifies this`stop, this`fenceReg, this`executed, this`consumed, fifo, bounceBuffer
      ensures Valid() && executed >= old(executed) && consumed >= old(consumed)
      ensures Draft() == [SVGA_CMD_FENCE, fence]
    {
      hide *;
      WriteReserved(0, SVGA_CMD_FENCE);
      WriteReserved(1, fence);
    }

    /** No more than 2^31 fence numbers were drawn since the one in the register. */
    ghost predicate Window()
      reads this
    {
      Fences.Window(fences, executed, draws)
    }

    /** Fewer than 3/4 of 2^31 calls of `InsertFence` failed since that fence. The driver has no such call:
        none is made while a reservation is open. */
    ghost predicate FewFailed()
      reads this
    {
      Failed(fences, executed, draws) < 0x6000_0000
    }

    lemma StillFew(executed0: nat)
      requires Valid() && Failed(fences, executed0, draws) < 0x6000_0000 && executed0 <= executed
      ensures FewFailed()
    {
      hide Outside, FencesOk, Register, AllFenceWords, QueueOk;
      FailedKept(fences, published, draws, executed0, executed);
    }

    /** Then the window holds: the other fences are in the ring, which is too small for so many. */
    lemma WindowHolds()
      requires Valid() && FewFailed()
      ensures Window()
    {
      hide Outside, FencesOk, Register, AllFenceWords;
      RingBounds(fifo[..], min / 4, max / 4, stop / 4, nextCmd / 4, stream, consumed);
      RingKeepsWindow(fences, published, draws, executed);
    }

    /** `HasFencePassed`. Of any fence of the stream it says exactly what `Shown` says. Within the window that is
        never yes of a fence that was not executed. */
    method HasFencePassed(fence: Word) returns (passed: bool)
      requires Valid()
      ensures fence == 0 ==> passed
      ensures fence != 0 && !hasFence ==> !passed
      ensures fence != 0 && hasFence ==> FenceShows(fence, passed)
      ensures fence != 0 && passed && Window() ==> AllExecuted(fences, fence, executed)
    {
      hide Outside, FencesOk, Register, AllFenceWords, QueueOk, Value, Passed, FenceShows, Fences.Window;
      if fence == 0 {
        return true;
      }
      if !hasFence {
        return false;
      }
      FenceTest(fence);
      passed := Passed(fenceReg, fence);
    }

    /** What the comparison may say of the fences of the stream with this number. */
    ghost predicate FenceShows(fence: Word, passed: bool)
      reads this
    {
      forall i: nat | i < |fences| && Value(fences[i].serial) == fence ::
        && (passed <==> Shown(fences, executed, i))
        && (fences[i].end <= executed && draws - fences[i].serial <= 0x7FFF_FFFF ==> passed)
    }

    lemma FenceTest(fence: Word)
      requires Valid()
      ensures FenceShows(fence, Passed(fenceReg, fence))
      ensures Passed(fenceReg, fence) && Window() ==> AllExecuted(fences, fence, executed)
    {
      hide Outside, FencesOk, Register, AllFenceWords, Value, Passed, Shown, Fences.Window;
      forall i: nat | i < |fences| && Value(fences[i].serial) == fence
        ensures Passed(fenceReg, fence) <==> Shown(fences, executed, i)
        ensures fences[i].end <= executed && draws - fences[i].serial <= 0x7FFF_FFFF ==> Passed(fenceReg, fence)
        ensures Passed(fenceReg, fence) && Window() ==> fences[i].end <= executed
      {
        PassedExact(fences, published, draws, executed, i);
        if fences[i].end <= executed && draws - fences[i].serial <= 0x7FFF_FFFF {
          ExecutedIsPassed(fences, published, draws, executed, i);
        }
        if Passed(fenceReg, fence) && Window() {
          PassedIsExecuted(fences, published, draws, executed, i);
        }
      }
    }

    /** `SyncToFence`. Any fence of the stream with that number which it leaves unexecuted looks passed; within
        the window there is none, and it returns only when all of them were executed. */
    method SyncToFence(fence: Word)
      requires Valid()
      modifies this`stop, this`fenceReg, this`executed, this`consumed
      ensures Valid() && executed >= old(executed) && consumed >= old(consumed)
      ensures fence != 0 && hasFence ==> FenceSynced(fence)
      ensures fence != 0 && hasFence && old(Window()) ==> AllExecuted(fences, fence, executed)
      ensures fence != 0 && !hasFence ==> executed == published
    {
      hide Outside, FencesOk, Register, AllFenceWords, QueueOk, Value, Passed, CounterAt, Shown, Fences.Window, FenceShows;
      if fence == 0 {
        return;
      }
      if !hasFence {
        var busy := ReadBusy();
        while busy
          invariant Valid() && executed >= old(executed) && consumed >= old(consumed)
          invariant busy <==> consumed < published
          decreases published - consumed
        {
          busy := ReadBusy();
        }
        return;
      }
      HostRuns();
      if Passed(fenceReg, fence) {
        Synced(fence, old(executed));
        return;
      }
      while !Passed(fenceReg, fence)
        invariant Valid() && executed >= old(executed) && consumed >= old(consumed)
        decreases published - consumed
      {
        var busy := ReadBusy();
        if busy {
          continue;
        }
        FencesBounded(fences, published, draws);
        return;
      }
      Synced(fence, old(executed));
    }

    ghost predicate FenceSynced(fence: Word)
      reads this
    {
      forall i: nat | i < |fences| && Value(fences[i].serial) == fence && fences[i].end > executed ::
        Shown(fences, executed, i)
    }

    lemma Synced(fence: Word, executed0: nat)
      requires Valid() && Passed(fenceReg, fence) && executed0 <= executed
      ensures FenceSynced(fence)
      ensures Fences.Window(fences, executed0, draws) ==> AllExecuted(fences, fence, executed)
    {
      hide Outside, FencesOk, Register, AllFenceWords, Value, Passed, Shown, Fences.Window;
      FenceTest(fence);
      if Fences.Window(fences, executed0, draws) {
        WindowKept(fences, published, draws, executed0, executed);
      }
    }

    method FIFOFull()
      requires Valid()
      modifies this`stop, this`fenceReg, this`executed, this`consumed
      ensures Valid() && executed >= old(executed) && consumed >= old(consumed)
      ensures old(consumed) < published ==> consumed > old(consumed)
    {
      var _ := ReadBusy();
    }
  }

  /** The memory before word `lo` and from word `hi` on. */
  ghost predicate Outside(mem: seq<Word>, lo: nat, hi: nat, front: seq<Word>, back: seq<Word>) {
    lo <= hi <= |mem| && mem[..lo] == front && mem[hi..] == back
  }

  /** Stores into the ring change nothing outside it. */
  lemma OutsideKept(mem: seq<Word>, mem': seq<Word>, lo: nat, hi: nat, front: seq<Word>, back: seq<Word>)
    requires Outside(mem, lo, hi, front, back) && |mem'| == |mem|
    requires forall k | 0 <= k < |mem| && !(lo <= k < hi) :: mem'[k] == mem[k]
    ensures Outside(mem', lo, hi, front, back)
  {
    assert mem'[..lo] == mem[..lo] && mem'[hi..] == mem[hi..];
  }

  lemma OutsideSame(mem: seq<Word>, mem': seq<Word>, lo: nat, hi: nat, front: seq<Word>, back: seq<Word>)
    requires Outside(mem, lo, hi, front, back) && Outside(mem', lo, hi, front, back) && |mem'| == |mem|
    ensures forall k | 0 <= k < |mem| && !(lo <= k < hi) :: mem'[k] == mem[k]
  {
    forall k | 0 <= k < |mem| && !(lo <= k < hi)
      ensures mem'[k] == mem[k]
    {
      if k < lo {
        assert mem'[..lo][k] == mem[..lo][k];
      } else {
        assert mem'[hi..][k - hi] == mem[hi..][k - hi];
      }
    }
  }

  ghost predicate AllFenceWords(stream: seq<Word>, fences: seq<Fence>) {
    forall i: nat | i < |fences| :: FenceWords(stream, fences[i])
  }

  lemma FenceWordsGrow(stream: seq<Word>, w: seq<Word>, fences: seq<Fence>, f: Fence)
    requires AllFenceWords(stream, fences)
    ensures AllFenceWords(stream + w, fences)
    ensures FenceWords(stream + w, f) ==> AllFenceWords(stream + w, fences + [f])
  {
  }

  ghost predicate EndsInFence(stream: seq<Word>, serial: nat) {
    FenceWords(stream, Fence(|stream|, serial))
  }

  /** The two words of a fence command stand where the fence says. */
  ghost predicate FenceWords(stream: seq<Word>, f: Fence) {
    2 <= f.end <= |stream| && stream[f.end - 2] == SVGA_CMD_FENCE && stream[f.end - 1] == Value(f.serial)
  }
}
