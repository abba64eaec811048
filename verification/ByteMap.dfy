/** The allocator's bit bitmap, kept in bytes with the most significant bit first.

    The word-wise loops (`testAll`, `clearAll`, `testAny`) are proved against the meaning of the
    single bits. `memAll` and `memAny` scan with `repe scasb` and look only at the remaining count,
    so a mismatch in the last byte scanned goes unseen; the contracts say exactly that. */
module ByteMap {

  /** `128U >> j`. */
  function Mask(j: nat): bv8
    requires j < 8
  {
    match j
    case 0 => 128
    case 1 => 64
    case 2 => 32
    case 3 => 16
    case 4 => 8
    case 5 => 4
    case 6 => 2
    case 7 => 1
  }

  predicate InByte(b: bv8, j: nat)
    requires j < 8
  {
    b & Mask(j) != 0
  }

  /** `BITTEST`. */
  predicate Bit(bitmap: seq<bv8>, n: nat)
    requires n < 8 * |bitmap|
  {
    InByte(bitmap[n / 8], n % 8)
  }

  lemma SetInByte(b: bv8, j: nat, i: nat)
    requires j < 8 && i < 8
    ensures InByte(b | Mask(j), i) == (i == j || InByte(b, i))
  {
  }

  lemma ClearInByte(b: bv8, j: nat, i: nat)
    requires j < 8 && i < 8
    ensures InByte(b & !Mask(j), i) == (i != j && InByte(b, i))
  {
  }

  lemma FullByte(b: bv8)
    ensures b == 0xFF <==> forall i | 0 <= i < 8 :: InByte(b, i)
  {
    if forall i | 0 <= i < 8 :: InByte(b, i) {
      assert InByte(b, 0) && InByte(b, 1) && InByte(b, 2) && InByte(b, 3);
      assert InByte(b, 4) && InByte(b, 5) && InByte(b, 6) && InByte(b, 7);
    }
  }

  lemma ZeroByte(b: bv8)
    ensures b == 0 <==> forall i | 0 <= i < 8 :: !InByte(b, i)
  {
    if forall i | 0 <= i < 8 :: !InByte(b, i) {
      assert !InByte(b, 0) && !InByte(b, 1) && !InByte(b, 2) && !InByte(b, 3);
      assert !InByte(b, 4) && !InByte(b, 5) && !InByte(b, 6) && !InByte(b, 7);
    }
  }

  method SetBit(bitmap: array<bv8>, n: nat)
    requires n < 8 * bitmap.Length
    modifies bitmap
    ensures forall m: nat | m < 8 * bitmap.Length :: Bit(bitmap[..], m) == (m == n || Bit(old(bitmap[..]), m))
  {
    bitmap[n / 8] := bitmap[n / 8] | Mask(n % 8);
    forall m: nat | m < 8 * bitmap.Length
      ensures Bit(bitmap[..], m) == (m == n || Bit(old(bitmap[..]), m))
    {
      SetInByte(old(bitmap[n / 8]), n % 8, m % 8);
    }
  }

  method ClearBit(bitmap: array<bv8>, n: nat)
    requires n < 8 * bitmap.Length
    modifies bitmap
    ensures forall m: nat | m < 8 * bitmap.Length :: Bit(bitmap[..], m) == (m != n && Bit(old(bitmap[..]), m))
  {
    bitmap[n / 8] := bitmap[n / 8] & !Mask(n % 8);
    forall m: nat | m < 8 * bitmap.Length
      ensures Bit(bitmap[..], m) == (m != n && Bit(old(bitmap[..]), m))
    {
      ClearInByte(old(bitmap[n / 8]), n % 8, m % 8);
    }
  }

  /** The count left by `repe scasb` over `s`, looking for bytes equal to `v`. */
  function ScasRemaining(s: seq<bv8>, v: bv8): (n: nat)
    ensures n == 0 <==> forall i | 0 <= i < |s| - 1 :: s[i] == v
  {
    if s == [] then 0
    else if s[0] != v then |s| - 1
    else
      assert forall i | 0 < i < |s| - 1 :: s[i] == s[1..][i - 1];
      ScasRemaining(s[1..], v)
  }

  /** `memAll`: true iff all bytes but the last are 0xFF. */
  method MemAll(bitmap: array<bv8>, from: nat, bytes: nat) returns (r: bool)
    requires from + bytes <= bitmap.Length
    ensures r <==> forall n: nat | 8 * from <= n < 8 * (from + bytes - 1) :: Bit(bitmap[..], n)
  {
    if bytes == 0 {
      return true;
    }
    r := ScasRemaining(bitmap[from..from + bytes], 0xFF) == 0;
    OnesAreBits(bitmap[..], from, from + bytes - 1);
    assert forall i | from <= i < from + bytes - 1 :: bitmap[i] == bitmap[from..from + bytes][i - from];
  }

  /** `memAny`: true iff some byte but the last is nonzero. */
  method MemAny(bitmap: array<bv8>, from: nat, bytes: nat) returns (r: bool)
    requires from + bytes <= bitmap.Length
    ensures r <==> exists n: nat | 8 * from <= n < 8 * (from + bytes - 1) :: Bit(bitmap[..], n)
  {
    if bytes == 0 {
      return false;
    }
    r := ScasRemaining(bitmap[from..from + bytes], 0) != 0;
    ZerosAreBits(bitmap[..], from, from + bytes - 1);
    assert forall i | from <= i < from + bytes - 1 :: bitmap[i] == bitmap[from..from + bytes][i - from];
  }

  /** First multiple of 8 that is not below `n`, and last one that is not above it. */
  function RoundUp(n: nat): (r: nat)
    ensures n <= r < n + 8 && r % 8 == 0
  {
    (n + 7) / 8 * 8
  }

  function RoundDown(n: nat): (r: nat)
    ensures n - 8 < r <= n && r % 8 == 0
  {
    n / 8 * 8
  }

  /** Bits whose value `testAll` and `testAny` never learn: those of the last byte given to the scan. */
  predicate Unseen(firstBit: nat, pastBit: nat, i: nat) {
    RoundUp(firstBit) < RoundDown(pastBit) && RoundDown(pastBit) - 8 <= i < RoundDown(pastBit)
  }

  lemma OnesAreBits(bitmap: seq<bv8>, lo: nat, hi: nat)
    requires lo <= hi <= |bitmap|
    ensures (forall i | lo <= i < hi :: bitmap[i] == 0xFF) <==> (forall n: nat | 8 * lo <= n < 8 * hi :: Bit(bitmap, n))
  {
    forall i | lo <= i < hi
      ensures bitmap[i] == 0xFF <==> forall j | 0 <= j < 8 :: InByte(bitmap[i], j)
    {
      FullByte(bitmap[i]);
    }
    forall i, j | lo <= i < hi && 0 <= j < 8
      ensures Bit(bitmap, 8 * i + j) == InByte(bitmap[i], j)
    {
    }
    forall n: nat | 8 * lo <= n < 8 * hi
      ensures lo <= n / 8 < hi && Bit(bitmap, n) == InByte(bitmap[n / 8], n % 8)
    {
    }
  }

  lemma ZerosAreBits(bitmap: seq<bv8>, lo: nat, hi: nat)
    requires lo <= hi <= |bitmap|
    ensures (forall i | lo <= i < hi :: bitmap[i] == 0) <==> (forall n: nat | 8 * lo <= n < 8 * hi :: !Bit(bitmap, n))
  {
    forall i | lo <= i < hi
      ensures bitmap[i] == 0 <==> forall j | 0 <= j < 8 :: !InByte(bitmap[i], j)
    {
      ZeroByte(bitmap[i]);
    }
    forall i, j | lo <= i < hi && 0 <= j < 8
      ensures Bit(bitmap, 8 * i + j) == InByte(bitmap[i], j)
    {
    }
    forall n: nat | 8 * lo <= n < 8 * hi
      ensures lo <= n / 8 < hi && Bit(bitmap, n) == InByte(bitmap[n / 8], n % 8)
    {
    }
  }

  /** The bit-by-bit loop of `testAll`. */
  method AllSet(bitmap: array<bv8>, from: nat, to: nat) returns (r: bool)
    requires to <= 8 * bitmap.Length
    ensures r <==> forall n: nat | from <= n < to :: Bit(bitmap[..], n)
  {
    var i := from;
    while i < to
      invariant from <= i && (i <= to || i == from)
      invariant forall n: nat | from <= n < i :: Bit(bitmap[..], n)
    {
      if !Bit(bitmap[..], i) {
        return false;
      }
      i := i + 1;
    }
    return true;
  }

  /** `testAll`. */
  method TestAll(bitmap: array<bv8>, firstBit: nat, pastBit: nat) returns (r: bool)
    requires pastBit <= 8 * bitmap.Length
    ensures r <==> forall i: nat | firstBit <= i < pastBit && !Unseen(firstBit, pastBit, i) :: Bit(bitmap[..], i)
    ensures forall i: nat :: Unseen(firstBit, pastBit, i) <==> (firstBit + 7) / 8 < pastBit / 8 == i / 8 + 1
  {
    var firstFull := RoundUp(firstBit);
    var pastFull := RoundDown(pastBit);
    var past := pastBit;
    if past > firstFull {
      past := firstFull;
    }
    r := AllSet(bitmap, firstBit, past);
    if !r {
      return;
    }
    if pastFull > firstFull {
      r := MemAll(bitmap, firstFull / 8, (pastFull - firstFull) / 8);
      if !r {
        return;
      }
    }
    if pastFull < past {
      pastFull := past;
    }
    r := AllSet(bitmap, pastFull, pastBit);
  }

  /** The bit-by-bit loop of `testAny`. */
  method AnySet(bitmap: array<bv8>, from: nat, to: nat) returns (r: bool)
    requires to <= 8 * bitmap.Length
    ensures r <==> exists n: nat | from <= n < to :: Bit(bitmap[..], n)
  {
    var i := from;
    while i < to
      invariant from <= i && (i <= to || i == from)
      invariant forall n: nat | from <= n < i :: !Bit(bitmap[..], n)
    {
      if Bit(bitmap[..], i) {
        return true;
      }
      i := i + 1;
    }
    return false;
  }

  /** `testAny`. */
  method TestAny(bitmap: array<bv8>, firstBit: nat, pastBit: nat) returns (r: bool)
    requires pastBit <= 8 * bitmap.Length
    ensures r <==> exists i: nat | firstBit <= i < pastBit && !Unseen(firstBit, pastBit, i) :: Bit(bitmap[..], i)
    ensures forall i: nat :: Unseen(firstBit, pastBit, i) <==> (firstBit + 7) / 8 < pastBit / 8 == i / 8 + 1
  {
    var firstFull := RoundUp(firstBit);
    var pastFull := RoundDown(pastBit);
    var past := pastBit;
    if past > firstFull {
      past := firstFull;
    }
    r := AnySet(bitmap, firstBit, past);
    if r {
      return;
    }
    if pastFull > firstFull {
      r := MemAny(bitmap, firstFull / 8, (pastFull - firstFull) / 8);
      if r {
        return;
      }
    }
    if pastFull < past {
      pastFull := past;
    }
    r := AnySet(bitmap, pastFull, pastBit);
  }

  /** `clearAll`: clears exactly the bits of [firstBit, pastBit), whatever their alignment. */
  method ClearAll(bitmap: array<bv8>, firstBit: nat, pastBit: nat)
    requires pastBit <= 8 * bitmap.Length
    modifies bitmap
    ensures forall n: nat | n < 8 * bitmap.Length ::
              Bit(bitmap[..], n) == (!(firstBit <= n < pastBit) && Bit(old(bitmap[..]), n))
  {
    var firstFull := RoundUp(firstBit);
    var pastFull := RoundDown(pastBit);
    var past := pastBit;
    if past > firstFull {
      past := firstFull;
    }
    var i := firstBit;
    while i < past
      invariant firstBit <= i && (i <= past || i == firstBit)
      invariant forall n: nat | n < 8 * bitmap.Length ::
                  Bit(bitmap[..], n) == (!(firstBit <= n < i) && Bit(old(bitmap[..]), n))
    {
      ClearBit(bitmap, i);
      i := i + 1;
    }
    if pastFull > firstFull {
      Bzero(bitmap, firstFull / 8, (pastFull - firstFull) / 8);
    }
    if pastFull < past {
      pastFull := past;
    }
    i := pastFull;
    while i < pastBit
      invariant pastFull <= i && (i <= pastBit || i == pastFull)
      invariant forall n: nat | n < 8 * bitmap.Length ::
                  Bit(bitmap[..], n) == (!(firstBit <= n < pastBit && n < i) && Bit(old(bitmap[..]), n))
    {
      ClearBit(bitmap, i);
      i := i + 1;
    }
  }

  /** The C library's `bzero` over whole bytes of the bitmap. */
  method Bzero(bitmap: array<bv8>, from: nat, bytes: nat)
    requires from + bytes <= bitmap.Length
    modifies bitmap
    ensures forall n: nat | n < 8 * bitmap.Length ::
              Bit(bitmap[..], n) == (!(8 * from <= n < 8 * (from + bytes)) && Bit(old(bitmap[..]), n))
  {
    forall i | from <= i < from + bytes {
      bitmap[i] := 0;
    }
    ZerosAreBits(bitmap[..], from, from + bytes);
    assert forall n: nat | n < 8 * bitmap.Length && !(from <= n / 8 < from + bytes) :: bitmap[n / 8] == old(bitmap[n / 8]);
  }

  /** A range whose last full byte is the only trouble passes `testAll`: 16 bits, the last 8 clear. */
  lemma LastByteGoesUnseen()
    ensures var bitmap := [0xFF, 0 as bv8];
            (forall i: nat | 0 <= i < 16 && !Unseen(0, 16, i) :: Bit(bitmap, i)) && !Bit(bitmap, 8)
  {
    var bitmap := [0xFF, 0 as bv8];
    FullByte(0xFF);
    assert forall i: nat | i < 8 :: Bit(bitmap, i) == InByte(0xFF, i);
    ZeroByte(0);
    assert Bit(bitmap, 8) == InByte(0, 0);
  }
}
