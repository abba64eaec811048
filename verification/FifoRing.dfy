/** The command ring as a value: where its words lie and which queue they stand for. */
module FifoRing {
  import opened Words

  /** The word that is `i` places after `start`, around the ring [lo, hi). */
  function Pos(lo: nat, hi: nat, start: nat, i: nat): (p: nat)
    requires lo <= start < hi && i <= hi - lo
    ensures lo <= p < hi
  {
    if start + i < hi then start + i else start + i - (hi - lo)
  }

  /** The `n` words from `start` on, around the ring. */
  function Ring(mem: seq<Word>, lo: nat, hi: nat, start: nat, n: nat): (r: seq<Word>)
    requires lo <= start < hi <= |mem| && n <= hi - lo
    ensures |r| == n
  {
    seq(n, i requires 0 <= i < n => mem[Pos(lo, hi, start, i)])
  }

  /** Words between STOP and NEXT_CMD. */
  function Used(lo: nat, hi: nat, stop: nat, next: nat): nat
    requires lo <= stop < hi && lo <= next < hi
  {
    if next >= stop then next - stop else next - stop + (hi - lo)
  }

  lemma PosAdd(lo: nat, hi: nat, start: nat, i: nat, j: nat)
    requires lo <= start < hi && i + j <= hi - lo
    ensures Pos(lo, hi, Pos(lo, hi, start, i), j) == Pos(lo, hi, start, i + j)
  {
  }

  lemma PosInjective(lo: nat, hi: nat, start: nat, i: nat, j: nat)
    requires lo <= start < hi && i < j < hi - lo
    ensures Pos(lo, hi, start, i) != Pos(lo, hi, start, j)
  {
  }

  /** The ring holds exactly the published words the device has not consumed, oldest at STOP, and it is
      never full: NEXT_CMD equals STOP only when nothing is pending. */
  ghost predicate QueueOk(mem: seq<Word>, lo: nat, hi: nat, stop: nat, next: nat, stream: seq<Word>, consumed: nat) {
    && lo <= stop < hi <= |mem| && consumed <= |stream| && |stream| - consumed < hi - lo
    && next == Pos(lo, hi, stop, |stream| - consumed)
    && Ring(mem, lo, hi, stop, |stream| - consumed) == stream[consumed..]
  }

  lemma RingBounds(mem: seq<Word>, lo: nat, hi: nat, stop: nat, next: nat, stream: seq<Word>, consumed: nat)
    requires QueueOk(mem, lo, hi, stop, next, stream, consumed)
    ensures lo <= stop < hi && lo <= next < hi <= |mem| && Used(lo, hi, stop, next) == |stream| - consumed < hi - lo
  {
  }

  /** The device takes the oldest `j` words. */
  lemma QueueConsume(mem: seq<Word>, lo: nat, hi: nat, stop: nat, next: nat, stream: seq<Word>, consumed: nat, j: nat)
    requires QueueOk(mem, lo, hi, stop, next, stream, consumed) && consumed + j <= |stream|
    ensures QueueOk(mem, lo, hi, Pos(lo, hi, stop, j), next, stream, consumed + j)
  {
    var n, stop' := |stream| - consumed, Pos(lo, hi, stop, j);
    PosAdd(lo, hi, stop, j, n - j);
    var r, s := Ring(mem, lo, hi, stop', n - j), stream[consumed + j..];
    forall i | 0 <= i < n - j
      ensures r[i] == s[i]
    {
      PosAdd(lo, hi, stop, j, i);
      assert Ring(mem, lo, hi, stop, n)[j + i] == stream[consumed..][j + i];
    }
  }

  /** Moving NEXT_CMD over words already stored behind the queue publishes exactly these words. */
  lemma QueuePublish(mem: seq<Word>, lo: nat, hi: nat, stop: nat, next: nat, stream: seq<Word>, consumed: nat, w: seq<Word>)
    requires QueueOk(mem, lo, hi, stop, next, stream, consumed) && |stream| - consumed + |w| < hi - lo
    requires forall j: nat | j < |w| :: mem[Pos(lo, hi, next, j)] == w[j]
    ensures QueueOk(mem, lo, hi, stop, Pos(lo, hi, next, |w|), stream + w, consumed)
  {
    var n := |stream| - consumed;
    PosAdd(lo, hi, stop, n, |w|);
    forall i | 0 <= i < n + |w|
      ensures Ring(mem, lo, hi, stop, n + |w|)[i] == (stream + w)[consumed..][i]
    {
      if i < n {
        assert Ring(mem, lo, hi, stop, n)[i] == stream[consumed..][i];
      } else {
        PosAdd(lo, hi, stop, n, i - n);
        assert mem[Pos(lo, hi, next, i - n)] == w[i - n];
      }
    }
  }

  /** A word behind the queue is none of the queue's words. */
  lemma BehindQueue(lo: nat, hi: nat, stop: nat, n: nat, j: nat, i: nat)
    requires lo <= stop < hi && n + j < hi - lo && i < n
    ensures Pos(lo, hi, Pos(lo, hi, stop, n), j) != Pos(lo, hi, stop, i)
  {
    PosAdd(lo, hi, stop, n, j);
    PosInjective(lo, hi, stop, i, n + j);
  }

  /** Stores among the next `m` words behind the queue leave the queue as it is. */
  lemma QueueFrame(mem: seq<Word>, mem': seq<Word>, lo: nat, hi: nat, stop: nat, next: nat, stream: seq<Word>,
                   consumed: nat, m: nat)
    requires QueueOk(mem, lo, hi, stop, next, stream, consumed) && |mem'| == |mem|
    requires |stream| - consumed + m < hi - lo
    requires forall p | lo <= p < hi && mem'[p] != mem[p] :: exists j: nat :: j < m && p == Pos(lo, hi, next, j)
    ensures QueueOk(mem', lo, hi, stop, next, stream, consumed)
  {
    var n := |stream| - consumed;
    forall i | 0 <= i < n
      ensures Ring(mem', lo, hi, stop, n)[i] == stream[consumed..][i]
    {
      var p := Pos(lo, hi, stop, i);
      if mem'[p] != mem[p] {
        var j: nat :| j < m && p == Pos(lo, hi, next, j);
        BehindQueue(lo, hi, stop, n, j, i);
      }
      assert Ring(mem, lo, hi, stop, n)[i] == stream[consumed..][i];
    }
  }

  /** Words stored in one piece behind the queue, `base` words after its end. */
  lemma QueueCopied(mem: seq<Word>, mem': seq<Word>, lo: nat, hi: nat, stop: nat, next: nat, stream: seq<Word>,
                    consumed: nat, to: nat, base: nat, n: nat)
    requires QueueOk(mem, lo, hi, stop, next, stream, consumed) && |mem'| == |mem|
    requires |stream| - consumed + base + n < hi - lo
    requires n > 0 ==> to == Pos(lo, hi, next, base) && to + n <= hi
    requires forall p: nat | p < |mem| && !(to <= p < to + n) :: mem'[p] == mem[p]
    ensures QueueOk(mem', lo, hi, stop, next, stream, consumed)
  {
    forall p | lo <= p < hi && mem'[p] != mem[p]
      ensures exists j: nat :: j < base + n && p == Pos(lo, hi, next, j)
    {
      assert p == Pos(lo, hi, next, base + (p - to));
    }
    QueueFrame(mem, mem', lo, hi, stop, next, stream, consumed, base + n);
  }

  /** The first `m` words of `buf` stand behind the queue. */
  ghost predicate Stored(mem: seq<Word>, lo: nat, hi: nat, next: nat, buf: seq<Word>, m: nat) {
    && lo <= next < hi <= |mem| && m <= |buf| && m < hi - lo
    && forall j: nat | j < m :: mem[Pos(lo, hi, next, j)] == buf[j]
  }

  lemma StoredMore(mem: seq<Word>, mem': seq<Word>, lo: nat, hi: nat, next: nat, buf: seq<Word>, to: nat, base: nat, n: nat)
    requires Stored(mem, lo, hi, next, buf, base) && |mem'| == |mem| && base + n <= |buf| && base + n < hi - lo
    requires n > 0 ==> to == Pos(lo, hi, next, base) && to + n <= hi
    requires forall p: nat | p < |mem| :: mem'[p] == if to <= p < to + n then buf[base..][p - to] else mem[p]
    ensures Stored(mem', lo, hi, next, buf, base + n)
  {
    forall j: nat | j < base + n
      ensures mem'[Pos(lo, hi, next, j)] == buf[j]
    {
      if j >= base {
        assert Pos(lo, hi, next, j) == to + (j - base);
      }
    }
  }

  /** The dword loop steps NEXT_CMD around the ring. */
  lemma NextPos(min: nat, max: nat, next: nat, next': nat)
    requires min % 4 == 0 && max % 4 == 0 && next % 4 == 0 && min <= next < max && min + 8 <= max
    requires next' == if next + 4 == max then min else next + 4
    ensures next' == 4 * Pos(min / 4, max / 4, next / 4, 1)
  {
  }

  lemma NextPosBytes(min: nat, max: nat, next: nat, next': int, bytes: nat)
    requires min % 4 == 0 && max % 4 == 0 && next % 4 == 0 && bytes % 4 == 0 && min <= next < max && bytes < max - min
    requires next' == if next + bytes >= max then next + bytes - (max - min) else next + bytes
    ensures next' == 4 * Pos(min / 4, max / 4, next / 4, bytes / 4)
  {
  }

  lemma StoredInPlace(mem: seq<Word>, lo: nat, hi: nat, next: nat, end: nat, n: nat)
    requires lo <= next && next + n <= end <= hi <= |mem| && next < hi && n < hi - lo
    ensures Stored(mem, lo, hi, next, mem[next..end][..n], n)
  {
  }

  lemma StoredPrefix(mem: seq<Word>, lo: nat, hi: nat, next: nat, buf: seq<Word>, r: nat, n: nat)
    requires Stored(mem, lo, hi, next, buf, n) && n <= r <= |buf|
    ensures Stored(mem, lo, hi, next, buf[..r][..n], n)
  {
  }

  lemma SliceUpdate(s: seq<Word>, a: nat, b: nat, i: nat, v: Word)
    requires a + i < b <= |s|
    ensures s[a + i := v][a..b] == s[a..b][i := v]
  {
  }

  lemma QueueStore(mem: seq<Word>, lo: nat, hi: nat, stop: nat, next: nat, stream: seq<Word>, consumed: nat, i: nat, v: Word)
    requires QueueOk(mem, lo, hi, stop, next, stream, consumed)
    requires |stream| - consumed + i + 1 < hi - lo && next + i < hi
    ensures next + i < |mem| && QueueOk(mem[next + i := v], lo, hi, stop, next, stream, consumed)
  {
    assert Pos(lo, hi, next, i) == next + i;
    QueueFrame(mem, mem[next + i := v], lo, hi, stop, next, stream, consumed, i + 1);
  }

  // ----- when a request is granted -----

  /** The tests of `FIFOReserve`, in bytes, for one value of STOP. */
  datatype Room = InPlace | Bounce | Full

  function ReserveTest(min: nat, max: nat, next: nat, stop: nat, bytes: nat): Room
    requires min <= stop < max && min <= next < max
  {
    if next >= stop then
      if next + bytes < max || (next + bytes == max && stop > min) then InPlace
      else if (max - next) + (stop - min) <= bytes then Full
      else Bounce
    else if next + bytes < stop then InPlace
    else Full
  }

  /** The tests grant a request exactly when the ring would still not be full with it, and in place
      exactly when it also fits before the end of the ring. */
  lemma ReserveTestMeaning(min: nat, max: nat, next: nat, stop: nat, bytes: nat)
    requires min <= stop < max && min <= next < max
    ensures ReserveTest(min, max, next, stop, bytes) != Full <==> Used(min, max, stop, next) + bytes < max - min
    ensures ReserveTest(min, max, next, stop, bytes) == InPlace <==>
              Used(min, max, stop, next) + bytes < max - min && next + bytes <= max
  {
  }

  /** A request for the whole ring passes the size check but is never granted. */
  lemma WholeRingNeverGranted(min: nat, max: nat, next: nat, stop: nat)
    requires min <= stop < max && min <= next < max
    ensures ReserveTest(min, max, next, stop, max - min) == Full
  {
  }
}
