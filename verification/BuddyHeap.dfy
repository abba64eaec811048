/** What clients of the allocator see: pointers, the bytes they asked for, and what they stored there. */
module BuddyHeap {
  import opened Returns
  import opened Words
  import opened PowersOfTwo
  import opened BuddyModel
  import opened Coalescing
  import opened BuddySpec
  import opened BuddyRelease

  /** The pointers that clients hold, and how many bytes each of them was promised. */
  type Held = map<nat, nat>

  /** `p` is the address of a live block of at least `size` bytes, in a pool that begins at `start`. */
  ghost predicate Backed(owner: seq<Owner>, start: nat, p: nat, size: nat) {
    && p >= start && (p - start) % PAGE_BYTES == 0
    && var o: nat := (p - start) / PAGE_BYTES; LiveAt(owner, o) && size <= PAGE_BYTES * Pow2(owner[o].order)
  }

  ghost predicate HeldAt(held: Held, owner: seq<Owner>, start: nat, o: nat) {
    LiveAt(owner, o) ==> start + PAGE_BYTES * o in held
  }

  /** Every pointer that is held is backed by a block, and no live block is without its pointer. */
  ghost predicate HeldOk(held: Held, owner: seq<Owner>, start: nat) {
    && (forall p | p in held :: Backed(owner, start, p, held[p]))
    && (forall o: nat | o < |owner| :: HeldAt(held, owner, start, o))
  }

  /** No two clients share a byte, and nobody has bytes outside the pool. */
  lemma HeldApart(held: Held, owner: seq<Owner>, start: nat, p: nat, q: nat)
    requires Tiled(owner) && HeldOk(held, owner, start) && p in held && q in held
    ensures start <= p && p + held[p] <= start + PAGE_BYTES * |owner|
    ensures p < q ==> p + held[p] <= q
  {
    assert Backed(owner, start, p, held[p]) && Backed(owner, start, q, held[q]);
    var o: nat, n: nat := (p - start) / PAGE_BYTES, (q - start) / PAGE_BYTES;
    hide Pow2, Aligned;
    assert BlockAt(owner, o) && BlockAt(owner, n);
  }

  /** Only the block at `o` may have become live, ceased to be, or changed its size. */
  ghost predicate LiveButFor(was: seq<Owner>, now: seq<Owner>, o: nat) {
    |now| == |was| && forall n: nat | n < |was| && n != o :: StaysLive(was, now, n)
  }

  ghost predicate StaysLive(was: seq<Owner>, now: seq<Owner>, n: nat)
    requires n < |was| == |now|
  {
    (LiveAt(now, n) <==> LiveAt(was, n)) && (LiveAt(was, n) ==> now[n] == was[n])
  }

  lemma HeldAfter(held: Held, held': Held, was: seq<Owner>, now: seq<Owner>, start: nat, o: nat)
    requires HeldOk(held, was, start) && LiveButFor(was, now, o)
    requires var p := start + PAGE_BYTES * o;
             && held' - {p} == held - {p}
             && (p in held' ==> Backed(now, start, p, held'[p])) && (LiveAt(now, o) ==> p in held')
    ensures HeldOk(held', now, start)
  {
    var p := start + PAGE_BYTES * o;
    forall q | q in held'
      ensures Backed(now, start, q, held'[q])
    {
      if q != p {
        assert q in held' - {p} && Backed(was, start, q, held[q]) && held'[q] == held[q];
        assert StaysLive(was, now, (q - start) / PAGE_BYTES);
      }
    }
    forall n: nat | n < |now|
      ensures HeldAt(held', now, start, n)
    {
      if n != o && LiveAt(now, n) {
        assert StaysLive(was, now, n) && HeldAt(held, was, start, n);
        assert start + PAGE_BYTES * n in held - {p};
      }
    }
  }

  // ----- what the calls do to the pointers that are held -----

  lemma AllocatedLive(was: seq<Owner>, now: seq<Owner>, o: nat, b: nat)
    requires Tiled(was) && Allocated(was, now, o, b)
    ensures LiveButFor(was, now, o) && !LiveAt(was, o) && LiveAt(now, o) && now[o].order == b
  {
    AllocatedFrame(was, now, o, b);
    forall n: nat | n < |was| && n != o
      ensures StaysLive(was, now, n)
    {
    }
  }

  lemma HeldAllocated(held: Held, was: seq<Owner>, now: seq<Owner>, start: nat, o: nat, b: nat, size: nat)
    requires Tiled(was) && HeldOk(held, was, start) && Allocated(was, now, o, b) && size <= PAGE_BYTES * Pow2(b)
    ensures start + PAGE_BYTES * o !in held && HeldOk(held[start + PAGE_BYTES * o := size], now, start)
  {
    AllocatedLive(was, now, o, b);
    var p := start + PAGE_BYTES * o;
    assert (p - start) / PAGE_BYTES == o && (p - start) % PAGE_BYTES == 0;
    hide Pow2, Allocated, Tiled, LiveButFor;
    assert p in held ==> Backed(was, start, p, held[p]);
    assert held[p := size] - {p} == held - {p};
    HeldAfter(held, held[p := size], was, now, start, o);
  }

  lemma FreedLive(was: seq<Owner>, now: seq<Owner>, o: nat)
    requires Tiled(was) && FreedTo(was, now, o)
    ensures LiveButFor(was, now, o) && LiveAt(was, o) && !LiveAt(now, o)
  {
    FreedFrame(was, now, o);
    assert BlockAt(was, o);
    hide Aligned, FreedTo;
    assert now[o].Free?;
    forall n: nat | n < |was| && n != o
      ensures StaysLive(was, now, n)
    {
      if o <= n < o + Pow2(was[o].order) {
        assert was[n] == was[o] && now[n].Free?;
      }
    }
  }

  lemma HeldFreed(held: Held, was: seq<Owner>, now: seq<Owner>, start: nat, o: nat)
    requires Tiled(was) && HeldOk(held, was, start) && FreedTo(was, now, o)
    ensures HeldOk(held - {start + PAGE_BYTES * o}, now, start)
  {
    FreedLive(was, now, o);
    HeldAfter(held, held - {start + PAGE_BYTES * o}, was, now, start, o);
  }

  lemma ShrunkLive(was: seq<Owner>, now: seq<Owner>, o: nat, j: nat)
    requires Tiled(was) && ShrunkTo(was, now, o, j)
    ensures LiveButFor(was, now, o) && LiveAt(now, o) && now[o].order == j
  {
    var k := was[o].order;
    assert BlockAt(was, o);
    hide Aligned;
    forall n: nat | n < |was| && n != o
      ensures StaysLive(was, now, n)
    {
      if o <= n < o + Pow2(k) {
        assert was[n] == was[o];
        if n >= o + Pow2(j) {
          assert MaximalAt(now, o + Pow2(j), o + Pow2(k), n);
        }
      }
    }
  }

  lemma HeldShrunk(held: Held, was: seq<Owner>, now: seq<Owner>, start: nat, o: nat, j: nat, size: nat)
    requires Tiled(was) && HeldOk(held, was, start) && ShrunkTo(was, now, o, j) && size <= PAGE_BYTES * Pow2(j)
    ensures HeldOk(held[start + PAGE_BYTES * o := size], now, start)
  {
    ShrunkLive(was, now, o, j);
    var p := start + PAGE_BYTES * o;
    assert (p - start) / PAGE_BYTES == o && (p - start) % PAGE_BYTES == 0;
    hide Pow2, ShrunkTo, Tiled, LiveButFor;
    assert held[p := size] - {p} == held - {p};
    HeldAfter(held, held[p := size], was, now, start, o);
  }

  /** A block that keeps its place and its order may be promised for another size that fits it. */
  lemma HeldResized(held: Held, owner: seq<Owner>, start: nat, o: nat, size: nat)
    requires HeldOk(held, owner, start) && LiveAt(owner, o) && size <= PAGE_BYTES * Pow2(owner[o].order)
    ensures HeldOk(held[start + PAGE_BYTES * o := size], owner, start)
  {
    var p := start + PAGE_BYTES * o;
    assert (p - start) / PAGE_BYTES == o && (p - start) % PAGE_BYTES == 0;
    hide Pow2;
    assert held[p := size] - {p} == held - {p};
    HeldAfter(held, held[p := size], owner, owner, start, o);
  }

  lemma HeldMoved(held: Held, was: seq<Owner>, now: seq<Owner>, start: nat, o: nat, n: nat, b: nat, size: nat)
    requires Tiled(was) && HeldOk(held, was, start) && MovedTo(was, now, o, n, b) && LiveAt(was, o) && size <= PAGE_BYTES * Pow2(b)
    ensures start + PAGE_BYTES * n !in held
    ensures HeldOk((held - {start + PAGE_BYTES * o})[start + PAGE_BYTES * n := size], now, start)
  {
    hide Tiled, Allocated, FreedTo, HeldOk, Pow2, LiveAt;
    var mid: seq<Owner> :| Tiled(mid) && Allocated(was, mid, n, b) && FreedTo(mid, now, o);
    var p, q := start + PAGE_BYTES * o, start + PAGE_BYTES * n;
    HeldAllocated(held, was, mid, start, n, b, size);
    HeldFreed(held[q := size], mid, now, start, o);
    assert p in held by { HeldLive(held, was, start, o); }
    assert held[q := size] - {p} == (held - {p})[q := size];
  }

  lemma HeldLive(held: Held, owner: seq<Owner>, start: nat, o: nat)
    requires HeldOk(held, owner, start) && LiveAt(owner, o)
    ensures start + PAGE_BYTES * o in held
  {
    assert HeldAt(held, owner, start, o);
  }

  lemma HeldReleased(held: Held, was: seq<Owner>, now: seq<Owner>, start: nat, first: nat, past: nat)
    requires HeldOk(held, was, start) && ReleasedTo(was, now, first, past)
    ensures HeldOk(held, now, start)
  {
    forall n: nat | n < |was|
      ensures StaysLive(was, now, n)
    {
      if first <= n < past {
        assert MaximalAt(now, first, past, n);
      }
    }
    assert LiveButFor(was, now, |was|);
    hide ReleasedTo, LiveButFor;
    assert start + PAGE_BYTES * |was| in held ==> Backed(was, start, start + PAGE_BYTES * |was|, held[start + PAGE_BYTES * |was|]);
    HeldAfter(held, held, was, now, start, |was|);
  }

  // ----- what the calls do to single pages -----

  lemma ShrunkPage(was: seq<Owner>, now: seq<Owner>, o: nat, b: nat, p: nat)
    requires Tiled(was) && ShrunkTo(was, now, o, b) && p < |was|
    ensures |now| == |was| && (now[p].Unreleased? <==> was[p].Unreleased?)
    ensures was[p].Live? && was[p].start != o ==> now[p] == was[p]
  {
    hide Pow2, Aligned;
    var k := was[o].order;
    assert BlockAt(was, o) && BlockAt(was, p);
    if o <= p < o + Pow2(k) {
      assert was[p] == was[o];
      if p >= o + Pow2(b) {
        assert MaximalAt(now, o + Pow2(b), o + Pow2(k), p);
      }
    }
  }

  lemma FreedPage(was: seq<Owner>, now: seq<Owner>, o: nat, p: nat)
    requires Tiled(was) && FreedTo(was, now, o) && p < |was|
    ensures |now| == |was| && (now[p].Unreleased? <==> was[p].Unreleased?)
    ensures was[p].Live? && was[p].start != o ==> now[p] == was[p]
  {
    FreedFrame(was, now, o);
    hide Pow2, Aligned, FreedTo;
    assert BlockAt(was, o);
    if o <= p < o + Pow2(was[o].order) {
      assert was[p] == was[o];
    }
  }

  lemma AllocatedPage(was: seq<Owner>, now: seq<Owner>, o: nat, b: nat, p: nat)
    requires Tiled(was) && Allocated(was, now, o, b) && p < |was|
    ensures |now| == |was| && (now[p].Unreleased? <==> was[p].Unreleased?)
    ensures was[p].Live? ==> now[p] == was[p]
  {
    AllocatedFrame(was, now, o, b);
    hide Pow2, Tiled, Allocated;
    if o <= p < o + Pow2(b) {
      assert was[p].Free? && now[p].Live?;
    }
  }

  lemma ReleasedPage(was: seq<Owner>, now: seq<Owner>, first: nat, past: nat, p: nat)
    requires ReleasedTo(was, now, first, past) && p < |was|
    ensures |now| == |was| && (now[p].Unreleased? <==> was[p].Unreleased? && !(first <= p < past))
    ensures was[p].Live? ==> now[p] == was[p]
  {
    hide NoneLoose, Coalesced, SeamsClean;
    if first <= p < past {
      assert MaximalAt(now, first, past, p);
    }
  }

  lemma MovedPage(was: seq<Owner>, now: seq<Owner>, o: nat, n: nat, b: nat, p: nat)
    requires Tiled(was) && MovedTo(was, now, o, n, b) && p < |was|
    ensures |now| == |was| && (now[p].Unreleased? <==> was[p].Unreleased?)
    ensures was[p].Live? && was[p].start != o ==> now[p] == was[p]
  {
    hide Tiled, Allocated, FreedTo;
    var mid: seq<Owner> :| Tiled(mid) && Allocated(was, mid, n, b) && FreedTo(mid, now, o);
    AllocatedPage(was, mid, n, b, p);
    FreedPage(mid, now, o, p);
  }

  // ----- what the calls do to the bytes behind the pointers -----

  /** The `size` bytes at `q` are what they were at `p`, word by word. */
  ghost predicate SameWords(mem: seq<Word>, mem': seq<Word>, start: nat, p: nat, q: nat, size: nat) {
    forall i: nat | 4 * i < size ::
      && p >= start && q >= start && (p - start) / 4 + i < |mem| && (q - start) / 4 + i < |mem'|
      && mem'[(q - start) / 4 + i] == mem[(p - start) / 4 + i]
  }

  /** The pages of a block that is live before and after keep their words. */
  lemma HeldWords(mem: seq<Word>, mem': seq<Word>, was: seq<Owner>, owner: seq<Owner>, start: nat, p: nat, size: nat)
    requires Tiled(was) && |was| == |owner| && PAGE_WORDS * |was| <= |mem| && Backed(was, start, p, size)
    requires SameElsewhere(mem, mem', owner)
    requires var o := (p - start) / PAGE_BYTES; forall n | 0 <= n < |was| && was[n] == was[o] :: !Ours(owner[n])
    ensures SameWords(mem, mem', start, p, p, size)
  {
    var o := (p - start) / PAGE_BYTES;
    assert BlockAt(was, o);
    hide Aligned, Tiled;
    forall i: nat | 4 * i < size
      ensures (p - start) / 4 + i < |mem| && mem'[(p - start) / 4 + i] == mem[(p - start) / 4 + i]
    {
      var w := (p - start) / 4 + i;
      assert p - start == PAGE_BYTES * o;
      assert w == PAGE_WORDS * o + i && i < PAGE_WORDS * Pow2(was[o].order);
      assert o <= w / PAGE_WORDS < o + Pow2(was[o].order);
      assert was[w / PAGE_WORDS] == was[o];
    }
  }

  lemma AllocatedWords(mem: seq<Word>, mem': seq<Word>, was: seq<Owner>, start: nat, p: nat, size: nat)
    requires Tiled(was) && PAGE_WORDS * |was| <= |mem| && Backed(was, start, p, size) && SameElsewhere(mem, mem', was)
    ensures SameWords(mem, mem', start, p, p, size)
  {
    hide Tiled, Pow2, SameElsewhere;
    HeldWords(mem, mem', was, was, start, p, size);
  }

  lemma FreedWords(mem: seq<Word>, mem': seq<Word>, was: seq<Owner>, now: seq<Owner>, start: nat, o: nat, p: nat, size: nat)
    requires Tiled(was) && PAGE_WORDS * |was| <= |mem| && Backed(was, start, p, size) && p != start + PAGE_BYTES * o
    requires FreedTo(was, now, o) && SameElsewhere(mem, mem', now)
    ensures SameWords(mem, mem', start, p, p, size)
  {
    hide Tiled, Pow2, SameElsewhere, FreedTo;
    var s := (p - start) / PAGE_BYTES;
    FreedPage(was, now, o, s);
    forall n: nat | n < |was| && was[n] == was[s]
      ensures !Ours(now[n])
    {
      FreedPage(was, now, o, n);
    }
    HeldWords(mem, mem', was, now, start, p, size);
  }

  lemma ShrunkWords(mem: seq<Word>, mem': seq<Word>, was: seq<Owner>, now: seq<Owner>, start: nat, o: nat, j: nat, p: nat, size: nat)
    requires Tiled(was) && Tiled(now) && PAGE_WORDS * |was| <= |mem| && Backed(was, start, p, size)
    requires ShrunkTo(was, now, o, j) && SameElsewhere(mem, mem', now)
    requires p == start + PAGE_BYTES * o ==> size <= PAGE_BYTES * Pow2(j)
    ensures SameWords(mem, mem', start, p, p, size)
  {
    var s := (p - start) / PAGE_BYTES;
    ShrunkLive(was, now, o, j);
    hide Tiled, Pow2, SameElsewhere, ShrunkTo;
    assert s != o ==> StaysLive(was, now, s);
    HeldWords(mem, mem', now, now, start, p, size);
  }

  lemma MovedWords(mem: seq<Word>, mem': seq<Word>, was: seq<Owner>, now: seq<Owner>, start: nat, o: nat, n: nat, b: nat,
                   p: nat, size: nat)
    requires Tiled(was) && PAGE_WORDS * |was| <= |mem| && Backed(was, start, p, size) && LiveAt(was, o)
    requires MovedTo(was, now, o, n, b) && Moved(mem, mem', now, o, was[o].order, n, b)
    ensures p != start + PAGE_BYTES * o ==> SameWords(mem, mem', start, p, p, size)
    ensures p == start + PAGE_BYTES * o ==> SameWords(mem, mem', start, p, start + PAGE_BYTES * n, size)
  {
    var s, k := (p - start) / PAGE_BYTES, was[o].order;
    hide Tiled, Pow2, MovedTo, Moved, SameWords;
    assert p == start + PAGE_BYTES * s;
    if s == o {
      MovedData(mem, mem', now, start, o, k, n, b, size);
    } else {
      MovedStays(was, now, o, n, b, s);
      // as if only pages of the allocator had been written, the new block's among them
      var ours := Paint(now, n, Pow2(b), Loose);
      MovedElsewhere(mem, mem', now, o, k, n, b);
      HeldWords(mem, mem', was, ours, start, p, size);
    }
  }

  lemma MovedData(mem: seq<Word>, mem': seq<Word>, now: seq<Owner>, start: nat, o: nat, k: nat, n: nat, b: nat, size: nat)
    requires Moved(mem, mem', now, o, k, n, b) && size <= PAGE_BYTES * Pow2(k)
    ensures SameWords(mem, mem', start, start + PAGE_BYTES * o, start + PAGE_BYTES * n, size)
  {
    hide Pow2;
    var to, from := mem'[PAGE_WORDS * n..PAGE_WORDS * (n + Pow2(k))], mem[PAGE_WORDS * o..PAGE_WORDS * (o + Pow2(k))];
    forall i: nat | 4 * i < size
      ensures PAGE_WORDS * n + i < |mem| && PAGE_WORDS * o + i < |mem|
      ensures mem'[PAGE_WORDS * n + i] == mem[PAGE_WORDS * o + i]
    {
      assert to[i] == from[i];
    }
  }

  lemma MovedElsewhere(mem: seq<Word>, mem': seq<Word>, now: seq<Owner>, o: nat, k: nat, n: nat, b: nat)
    requires Moved(mem, mem', now, o, k, n, b) && n + Pow2(b) <= |now|
    ensures SameElsewhere(mem, mem', Paint(now, n, Pow2(b), Loose))
  {
    hide Pow2;
    var ours := Paint(now, n, Pow2(b), Loose);
    forall w: nat | w < |mem| && (w / PAGE_WORDS < |ours| ==> !Ours(ours[w / PAGE_WORDS]))
      ensures mem'[w] == mem[w]
    {
      var p := w / PAGE_WORDS;
      assert !(n <= p < n + Pow2(b));
      assert p < |now| ==> ours[p] == now[p];
    }
  }

  /** A live block other than the one that moves lies outside the new block and stays. */
  lemma MovedStays(was: seq<Owner>, now: seq<Owner>, o: nat, n: nat, b: nat, s: nat)
    requires Tiled(was) && MovedTo(was, now, o, n, b) && LiveAt(was, s) && s != o
    ensures |now| == |was| && n + Pow2(b) <= |now|
    ensures forall q | 0 <= q < |was| && was[q] == was[s] :: now[q] == was[q] && !(n <= q < n + Pow2(b))
  {
    hide Tiled, Allocated, FreedTo, Pow2;
    var mid: seq<Owner> :| Tiled(mid) && Allocated(was, mid, n, b) && FreedTo(mid, now, o);
    AllocatedFrame(was, mid, n, b);
    FreedFrame(mid, now, o);
    forall q: nat | q < |was| && was[q] == was[s]
      ensures now[q] == was[q]
    {
      AllocatedPage(was, mid, n, b, q);
      FreedPage(mid, now, o, q);
    }
  }

  // ----- both together, call by call -----

  ghost predicate AllSame(held: Held, but: nat, mem: seq<Word>, mem': seq<Word>, start: nat) {
    forall q | q in held && q != but :: SameWords(mem, mem', start, q, q, held[q])
  }

  ghost predicate InMemory(owner: seq<Owner>, mem: seq<Word>) {
    Tiled(owner) && PAGE_WORDS * |owner| <= |mem|
  }

  lemma NothingWritten(held: Held, owner: seq<Owner>, start: nat, mem: seq<Word>)
    requires InMemory(owner, mem) && HeldOk(held, owner, start)
    ensures forall q | q in held :: SameWords(mem, mem, start, q, q, held[q])
  {
    forall q | q in held
      ensures SameWords(mem, mem, start, q, q, held[q])
    {
      AllocatedWords(mem, mem, owner, start, q, held[q]);
    }
  }

  lemma NewBlock(held: Held, was: seq<Owner>, now: seq<Owner>, start: nat, ptr: nat, size: nat, mem: seq<Word>, mem': seq<Word>)
    requires InMemory(was, mem) && HeldOk(held, was, start) && SameElsewhere(mem, mem', was)
    requires ptr >= start && (ptr - start) % PAGE_BYTES == 0
    requires Allocated(was, now, (ptr - start) / PAGE_BYTES, OrderFor(size))
    ensures ptr !in held && HeldOk(held[ptr := size], now, start)
    ensures forall q | q in held :: SameWords(mem, mem', start, q, q, held[q])
  {
    OrderForFits(size, OrderFor(size));
    HeldAllocated(held, was, now, start, (ptr - start) / PAGE_BYTES, OrderFor(size), size);
    forall q | q in held
      ensures SameWords(mem, mem', start, q, q, held[q])
    {
      AllocatedWords(mem, mem', was, start, q, held[q]);
    }
  }

  lemma GivenUp(held: Held, was: seq<Owner>, now: seq<Owner>, start: nat, o: nat, mem: seq<Word>, mem': seq<Word>)
    requires InMemory(was, mem) && HeldOk(held, was, start) && FreedTo(was, now, o) && SameElsewhere(mem, mem', now)
    ensures HeldOk(held - {start + PAGE_BYTES * o}, now, start) && AllSame(held, start + PAGE_BYTES * o, mem, mem', start)
  {
    HeldFreed(held, was, now, start, o);
    hide FreedTo, SameElsewhere, SameWords, Backed;
    forall q | q in held && q != start + PAGE_BYTES * o
      ensures SameWords(mem, mem', start, q, q, held[q])
    {
      FreedWords(mem, mem', was, now, start, o, q, held[q]);
    }
  }

  /** The block at `o` stays where it is and has the order that `size` asks for. */
  lemma Resized(held: Held, was: seq<Owner>, now: seq<Owner>, start: nat, o: nat, size: nat, mem: seq<Word>, mem': seq<Word>)
    requires InMemory(was, mem) && Tiled(now) && HeldOk(held, was, start) && LiveAt(was, o) && start + PAGE_BYTES * o in held
    requires if OrderFor(size) == was[o].order then now == was else ShrunkTo(was, now, o, OrderFor(size))
    requires SameElsewhere(mem, mem', now)
    ensures var p := start + PAGE_BYTES * o;
            && HeldOk(held[p := size], now, start) && AllSame(held, p, mem, mem', start)
            && SameWords(mem, mem', start, p, p, Least(held[p], size))
  {
    var p, j := start + PAGE_BYTES * o, OrderFor(size);
    var l := Least(held[p], size);
    OrderForFits(size, j);
    BackedAt(held, was, start, o, l);
    hide SameElsewhere, SameWords, ShrunkTo, Pow2, Tiled, OrderFor, Backed;
    if j == was[o].order {
      HeldResized(held, was, start, o, size);
    } else {
      HeldShrunk(held, was, now, start, o, j, size);
    }
    forall q | q in held
      ensures SameWords(mem, mem', start, q, q, if q == p then l else held[q])
    {
      if j == was[o].order {
        AllocatedWords(mem, mem', was, start, q, if q == p then l else held[q]);
      } else {
        ShrunkWords(mem, mem', was, now, start, o, j, q, if q == p then l else held[q]);
      }
    }
  }

  lemma Relocated(held: Held, was: seq<Owner>, now: seq<Owner>, start: nat, o: nat, n: nat, size: nat, mem: seq<Word>, mem': seq<Word>)
    requires InMemory(was, mem) && HeldOk(held, was, start) && LiveAt(was, o) && start + PAGE_BYTES * o in held
    requires MovedTo(was, now, o, n, OrderFor(size)) && Moved(mem, mem', now, o, was[o].order, n, OrderFor(size))
    ensures var p, ptr := start + PAGE_BYTES * o, start + PAGE_BYTES * n;
            && ptr !in held && HeldOk((held - {p})[ptr := size], now, start) && AllSame(held, p, mem, mem', start)
            && SameWords(mem, mem', start, p, ptr, Least(held[p], size))
  {
    var p, ptr := start + PAGE_BYTES * o, start + PAGE_BYTES * n;
    OrderForFits(size, OrderFor(size));
    BackedAt(held, was, start, o, Least(held[p], size));
    hide *;
    HeldMoved(held, was, now, start, o, n, OrderFor(size), size);
    MovedWords(mem, mem', was, now, start, o, n, OrderFor(size), p, Least(held[p], size));
    MovedOthers(held, was, now, start, o, n, OrderFor(size), mem, mem');
  }

  lemma BackedAt(held: Held, owner: seq<Owner>, start: nat, o: nat, size: nat)
    requires HeldOk(held, owner, start) && start + PAGE_BYTES * o in held && size <= held[start + PAGE_BYTES * o]
    ensures Backed(owner, start, start + PAGE_BYTES * o, size) && LiveAt(owner, o)
  {
    assert Backed(owner, start, start + PAGE_BYTES * o, held[start + PAGE_BYTES * o]);
  }

  lemma MovedOthers(held: Held, was: seq<Owner>, now: seq<Owner>, start: nat, o: nat, n: nat, b: nat, mem: seq<Word>, mem': seq<Word>)
    requires InMemory(was, mem) && HeldOk(held, was, start) && LiveAt(was, o)
    requires MovedTo(was, now, o, n, b) && Moved(mem, mem', now, o, was[o].order, n, b)
    ensures AllSame(held, start + PAGE_BYTES * o, mem, mem', start)
  {
    hide SameWords, MovedTo, Moved, Pow2, Tiled, Backed, LiveAt;
    forall q | q in held && q != start + PAGE_BYTES * o
      ensures SameWords(mem, mem', start, q, q, held[q])
    {
      MovedWords(mem, mem', was, now, start, o, n, b, q, held[q]);
    }
  }

  lemma PoolGrew(held: Held, was: seq<Owner>, now: seq<Owner>, start: nat, first: nat, past: nat, mem: seq<Word>, mem': seq<Word>)
    requires InMemory(was, mem) && HeldOk(held, was, start) && ReleasedTo(was, now, first, past) && SameElsewhere(mem, mem', now)
    ensures HeldOk(held, now, start)
    ensures forall q | q in held :: SameWords(mem, mem', start, q, q, held[q])
  {
    HeldReleased(held, was, now, start, first, past);
    hide SameWords, SameElsewhere, ReleasedTo;
    forall q | q in held
      ensures SameWords(mem, mem', start, q, q, held[q])
    {
      assert Backed(was, start, q, held[q]);
      var s := (q - start) / PAGE_BYTES;
      ReleasedPage(was, now, first, past, s);
      forall n: nat | n < |was| && was[n] == was[s]
        ensures !Ours(now[n])
      {
        ReleasedPage(was, now, first, past, n);
      }
      HeldWords(mem, mem', was, now, start, q, held[q]);
    }
  }

  // ----- the heap that clients see -----

  datatype Request =
    | AskMalloc(bytes: nat)
    | AskFree(p: nat)
    | AskRealloc(p: nat, size: nat)
    | AskRelease(startOffset: nat, endOffset: nat)

  /** What a call does to the pointers that are held: a new one is new, one that is given back is gone. */
  ghost predicate Served(r: Request, rc: IOReturn, ptr: nat, was: Held, now: Held) {
    match r
    case AskMalloc(bytes) => if rc == Success then ptr !in was && now == was[ptr := bytes] else now == was
    case AskFree(p) => now == if p == 0 then was else was - {p}
    case AskRealloc(p, size) =>
      var others := if p == 0 then was else was - {p};
      if size == 0 then now == others
      else if rc == Success then (p != 0 ==> p in was) && ptr !in others && now == others[ptr := size]
      else now == was
    case AskRelease(_, _) => now == was
  }

  /** The pointer that a request gives back, or 0. */
  function GivenBack(r: Request): nat {
    match r
    case AskFree(p) => p
    case AskRealloc(p, _) => p
    case _ => 0
  }

  function Least(a: nat, b: nat): (r: nat)
    ensures r <= a && r <= b && (r == a || r == b)
  {
    if a < b then a else b
  }

  /** What it does to the bytes behind them: `Realloc` brings along what was stored, as much as fits, and
      behind every other pointer everything is as it was. */
  ghost predicate Preserved(r: Request, rc: IOReturn, ptr: nat, was: Held, mem: seq<Word>, mem': seq<Word>, start: nat) {
    forall q | q in was ::
      if q != 0 && GivenBack(r) == q && rc == Success then
        r.AskRealloc? && r.size > 0 ==> SameWords(mem, mem', start, q, ptr, Least(was[q], r.size))
      else SameWords(mem, mem', start, q, q, was[q])
  }

  /** What `Realloc` does to the block at `o`; its result is the block at `n`. */
  ghost predicate ReallocEffect(was: seq<Owner>, owner: seq<Owner>, o: nat, n: nat, size: nat, mem: seq<Word>, mem': seq<Word>) {
    && LiveAt(was, o)
    && if size == 0 then FreedTo(was, owner, o) && SameElsewhere(mem, mem', owner)
       else if OrderFor(size) > was[o].order then
         MovedTo(was, owner, o, n, OrderFor(size)) && Moved(mem, mem', owner, o, was[o].order, n, OrderFor(size))
       else
         && n == o && (if OrderFor(size) == was[o].order then owner == was else ShrunkTo(was, owner, o, OrderFor(size)))
         && SameElsewhere(mem, mem', owner)
  }

  lemma ReallocServed(held: Held, was: seq<Owner>, owner: seq<Owner>, start: nat, o: nat, n: nat, size: nat, ptr: nat,
                      mem: seq<Word>, mem': seq<Word>) returns (now: Held)
    requires InMemory(was, mem) && Tiled(owner) && HeldOk(held, was, start)
    requires start + PAGE_BYTES * o in held && start + PAGE_BYTES * o != 0 && (size > 0 ==> ptr == start + PAGE_BYTES * n)
    requires ReallocEffect(was, owner, o, n, size, mem, mem')
    ensures HeldOk(now, owner, start) && Served(AskRealloc(start + PAGE_BYTES * o, size), Success, ptr, held, now)
    ensures Preserved(AskRealloc(start + PAGE_BYTES * o, size), Success, ptr, held, mem, mem', start)
  {
    hide Allocated, FreedTo, ShrunkTo, MovedTo, Moved, SameElsewhere, OrderFor, Tiled, HeldOk, SameWords, InMemory;
    var p := start + PAGE_BYTES * o;
    if size == 0 {
      now := held - {p};
      GivenUp(held, was, owner, start, o, mem, mem');
    } else if OrderFor(size) > was[o].order {
      now := (held - {p})[ptr := size];
      Relocated(held, was, owner, start, o, n, size, mem, mem');
    } else {
      now := held[p := size];
      assert now == (held - {p})[p := size];
      Resized(held, was, owner, start, o, size, mem, mem');
    }
  }
}
