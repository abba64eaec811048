/** Bit tricks on the id masks: which bit is the lowest clear one, and how a range of bits is set.

    A machine word is its bits, least significant first, and the operators are the machine's, bit by bit. */
module IdMasks {

  type Word64 = x: seq<bool> | |x| == 64 witness seq(64, _ => false)

  function Not(x: seq<bool>): (r: seq<bool>)
    ensures |r| == |x|
  {
    seq(|x|, i requires 0 <= i < |x| => !x[i])
  }

  function And(x: seq<bool>, y: seq<bool>): (r: seq<bool>)
    requires |x| == |y|
    ensures |r| == |x|
  {
    seq(|x|, i requires 0 <= i < |x| => x[i] && y[i])
  }

  function Or(x: seq<bool>, y: seq<bool>): (r: seq<bool>)
    requires |x| == |y|
    ensures |r| == |x|
  {
    seq(|x|, i requires 0 <= i < |x| => x[i] || y[i])
  }

  function Zero(n: nat): (r: seq<bool>)
    ensures |r| == n
  {
    seq(n, _ => false)
  }

  /** `1 << i`. */
  function One(n: nat, i: nat): (r: seq<bool>)
    requires i < n
    ensures |r| == n
  {
    Zero(n)[i := true]
  }

  /** `x >> k`. */
  function Shr(x: seq<bool>, k: nat): (r: seq<bool>)
    ensures |r| == |x|
  {
    seq(|x|, i requires 0 <= i < |x| => i + k < |x| && x[i + k])
  }

  /** `x + 1`, with the carry running from the lowest bit. */
  function Inc(x: seq<bool>): (r: seq<bool>)
    ensures |r| == |x|
  {
    if x == [] then []
    else if x[0] then [false] + Inc(x[1..])
    else [true] + x[1..]
  }

  /** The number a word stands for. */
  function Number(x: seq<bool>): nat {
    if x == [] then 0 else (if x[0] then 1 else 0) + 2 * Number(x[1..])
  }

  function Limit(n: nat): nat {
    if n == 0 then 1 else 2 * Limit(n - 1)
  }

  /** `Inc` adds 1 and wraps. */
  lemma {:induction false} IncIsPlusOne(x: seq<bool>)
    ensures Number(x) < Limit(|x|)
    ensures Number(Inc(x)) == if Number(x) + 1 == Limit(|x|) then 0 else Number(x) + 1
  {
    if x != [] {
      IncIsPlusOne(x[1..]);
      assert Inc(x)[1..] == if x[0] then Inc(x[1..]) else x[1..];
    }
  }

  predicate AllOnes(x: seq<bool>) {
    forall i | 0 <= i < |x| :: x[i]
  }

  /** `~x & (x + 1)` is the lowest clear bit of `x` alone, or 0 if there is none. */
  lemma {:induction false} LowestClear(x: seq<bool>)
    ensures AllOnes(x) ==> And(Not(x), Inc(x)) == Zero(|x|)
    ensures !AllOnes(x) ==>
              exists k: nat :: k < |x| && !x[k] && AllOnes(x[..k]) && And(Not(x), Inc(x)) == One(|x|, k)
  {
    if x != [] {
      var t, lowest := x[1..], And(Not(x), Inc(x));
      LowestClear(t);
      if x[0] {
        assert lowest == [false] + And(Not(t), Inc(t));
        if AllOnes(t) {
          assert AllOnes(x);
        } else {
          var k: nat :| k < |t| && !t[k] && AllOnes(t[..k]) && And(Not(t), Inc(t)) == One(|t|, k);
          assert x[..k + 1] == [true] + t[..k];
          assert lowest == One(|x|, k + 1);
        }
      } else {
        assert lowest == One(|x|, 0);
        assert AllOnes(x[..0]);
      }
    }
  }

  predicate AnyIn(x: seq<bool>, from: nat, to: nat)
    requires from <= to <= |x|
  {
    exists i :: from <= i < to && x[i]
  }

  /** One halving step of the logarithm: `y` was added for the bits shifted out. */
  ghost predicate Halved(x0: seq<bool>, x: seq<bool>, y: nat, width: nat) {
    && x == Shr(x0, y) && width <= |x| && (forall i | width <= i < |x| :: !x[i])
    && (y > 0 ==> AnyIn(x, 0, width))
  }

  lemma HalvedStep(x0: seq<bool>, x: seq<bool>, y: nat, half: nat)
    requires Halved(x0, x, y, 2 * half)
    ensures if AnyIn(x, half, 2 * half) then Halved(x0, Shr(x, half), y + half, half) else Halved(x0, x, y, half)
  {
    if AnyIn(x, half, 2 * half) {
      var i :| half <= i < 2 * half && x[i];
      assert Shr(x, half)[i - half];
      assert Shr(x, half) == Shr(x0, y + half);
    }
  }

  /** `y` is the number of the highest bit that is set, or -1 if none is. */
  ghost predicate IsLog(x: seq<bool>, y: int) {
    if y < 0 then y == -1 && x == Zero(|x|)
    else y < |x| && x[y] && forall i | y < i < |x| :: !x[i]
  }

  lemma HalvedToOne(x0: seq<bool>, x: seq<bool>, y: nat)
    requires Halved(x0, x, y, 1)
    ensures IsLog(x0, if x[0] then y else -1)
  {
    if x[0] {
      forall i | y < i < |x0|
        ensures !x0[i]
      {
        assert Shr(x0, y)[i - y] == x0[i];
      }
    } else {
      assert y == 0;
      assert Shr(x0, 0) == x0;
    }
  }

  /** `log_2_32`. The masks of the source test one half of the bits that may still be set. */
  method Log2of32(x0: seq<bool>) returns (y: int)
    requires |x0| == 32
    ensures IsLog(x0, y)
  {
    hide Shr, Halved;
    var x := x0;
    y := 0;
    HalvedStart(x0, 32);
    HalvedStep(x0, x, y, 16);
    if AnyIn(x, 16, 32) { y := y + 16; x := Shr(x, 16); }
    HalvedStep(x0, x, y, 8);
    if AnyIn(x, 8, 16) { y := y + 8; x := Shr(x, 8); }
    HalvedStep(x0, x, y, 4);
    if AnyIn(x, 4, 8) { y := y + 4; x := Shr(x, 4); }
    HalvedStep(x0, x, y, 2);
    if AnyIn(x, 2, 4) { y := y + 2; x := Shr(x, 2); }
    HalvedStep(x0, x, y, 1);
    if AnyIn(x, 1, 2) { y := y + 1; x := Shr(x, 1); }
    HalvedToOne(x0, x, y);
    if !x[0] {
      return -1;
    }
  }

  lemma HalvedStart(x: seq<bool>, width: nat)
    requires width == |x|
    ensures Halved(x, x, 0, width)
  {
    assert Shr(x, 0) == x;
  }

  lemma LogOfHalf(x0: seq<bool>, x: seq<bool>, y: nat, width: nat, low: int)
    requires Halved(x0, x, y, width) && IsLog(x[..width], low)
    ensures IsLog(x0, if low < 0 then -1 else y + low)
  {
    if low < 0 {
      assert forall i | 0 <= i < width :: !x[..width][i];
      assert y == 0 && x == x0;
    } else {
      forall i | y + low < i < |x0|
        ensures !x0[i]
      {
        assert Shr(x0, y)[i - y] == x0[i];
        assert i - y < width ==> !x[..width][i - y];
      }
    }
  }

  /** `log_2_64`. */
  method Log2of64(x0: Word64) returns (y: int)
    ensures IsLog(x0, y)
  {
    hide Shr, Halved, IsLog;
    var x: seq<bool> := x0;
    y := 0;
    HalvedStart(x0, 64);
    HalvedStep(x0, x, y, 32);
    if AnyIn(x, 32, 64) {
      y := 32;
      x := Shr(x, 32);
    }
    var low := Log2of32(x[..32]);
    LogOfHalf(x0, x, y, 32, low);
    y := if low < 0 then -1 else y + low;
  }

  // ----- arrays of words -----

  /** Bit `n` of the mask, counted over all its words. */
  predicate IdBit(mask: seq<Word64>, n: nat)
    requires n < 64 * |mask|
  {
    mask[n / 64][n % 64]
  }

  lemma OrOne(x: Word64, i: nat)
    requires i < 64
    ensures Or(x, One(64, i)) == x[i := true]
  {
  }

  lemma BitOfUpdate(mask: seq<Word64>, n: nat, on: bool, m: nat)
    requires n < 64 * |mask| && m < 64 * |mask|
    ensures IdBit(mask[n / 64 := mask[n / 64][n % 64 := on]], m) == if m == n then on else IdBit(mask, m)
  {
  }

  /** `find_bit_in_array64` on the words from `base` on: takes the lowest bit that is clear in them. */
  method FindBit(mask: array<Word64>, base: nat, numEntries: nat) returns (r: int)
    requires base + numEntries <= mask.Length
    modifies mask
    ensures r < 0 ==> r == -1 && mask[..] == old(mask[..])
    ensures r < 0 <==> forall m: nat | 64 * base <= m < 64 * (base + numEntries) :: IdBit(old(mask[..]), m)
    ensures r >= 0 ==>
              && r < 64 * numEntries && !IdBit(old(mask[..]), 64 * base + r)
              && (forall m: nat | 64 * base <= m < 64 * base + r :: IdBit(old(mask[..]), m))
              && forall m: nat | m < 64 * mask.Length :: IdBit(mask[..], m) == (m == 64 * base + r || IdBit(old(mask[..]), m))
  {
    ghost var was := mask[..];
    for e := base to base + numEntries
      invariant mask[..] == was
      invariant forall m: nat | 64 * base <= m < 64 * e :: IdBit(was, m)
    {
      var x := mask[e];
      LowestClear(x);
      x := And(Not(x), Inc(x));
      if x == Zero(64) {
        WordFull(was, e);
        continue;
      }
      ghost var k: nat :| k < 64 && !was[e][k] && AllOnes(was[e][..k]) && x == One(64, k);
      mask[e] := Or(mask[e], x);
      var log := Log2of64(x);
      LogOfOne(k, log);
      OrOne(was[e], k);
      TakeBit(was, mask[..], e, k);
      assert !IdBit(was, 64 * e + k);
      return 64 * (e - base) + log;
    }
    r := -1;
  }

  lemma WordFull(mask: seq<Word64>, e: nat)
    requires e < |mask| && And(Not(mask[e]), Inc(mask[e])) == Zero(64)
    ensures forall m: nat | 64 * e <= m < 64 * (e + 1) :: IdBit(mask, m)
  {
    LowestClear(mask[e]);
    forall k: nat | k < 64
      ensures One(64, k) != Zero(64)
    {
      assert One(64, k)[k] && !Zero(64)[k];
    }
    assert AllOnes(mask[e]);
  }

  lemma LogOfOne(k: nat, log: int)
    requires k < 64 && IsLog(One(64, k), log)
    ensures log == k
  {
    assert One(64, k)[k] && !Zero(64)[k];
  }

  lemma TakeBit(was: seq<Word64>, now: seq<Word64>, e: nat, k: nat)
    requires e < |was| && k < 64 && AllOnes(was[e][..k]) && now == was[e := was[e][k := true]]
    ensures forall m: nat | 64 * e <= m < 64 * e + k :: IdBit(was, m)
    ensures forall m: nat | m < 64 * |was| :: IdBit(now, m) == (m == 64 * e + k || IdBit(was, m))
  {
    forall m: nat | 64 * e <= m < 64 * e + k
      ensures IdBit(was, m)
    {
      assert was[e][..k][m - 64 * e];
    }
    forall m: nat | m < 64 * |was|
      ensures IdBit(now, m) == (m == 64 * e + k || IdBit(was, m))
    {
      BitOfUpdate(was, 64 * e + k, true, m);
    }
  }

  method SetIdBit(mask: array<Word64>, n: nat)
    requires n < 64 * mask.Length
    modifies mask
    ensures forall m: nat | m < 64 * mask.Length :: IdBit(mask[..], m) == (m == n || IdBit(old(mask[..]), m))
  {
    ghost var was := mask[..];
    mask[n / 64] := Or(mask[n / 64], One(64, n % 64));
    OrOne(was[n / 64], n % 64);
    assert mask[..] == was[n / 64 := was[n / 64][n % 64 := true]];
    forall m: nat | m < 64 * mask.Length
      ensures IdBit(mask[..], m) == (m == n || IdBit(was, m))
    {
      BitOfUpdate(was, n, true, m);
    }
  }

  method ClearIdBit(mask: array<Word64>, n: nat)
    requires n < 64 * mask.Length
    modifies mask
    ensures forall m: nat | m < 64 * mask.Length :: IdBit(mask[..], m) == (m != n && IdBit(old(mask[..]), m))
  {
    ghost var was := mask[..];
    mask[n / 64] := And(mask[n / 64], Not(One(64, n % 64)));
    assert mask[n / 64] == was[n / 64][n % 64 := false];
    assert mask[..] == was[n / 64 := was[n / 64][n % 64 := false]];
    forall m: nat | m < 64 * mask.Length
      ensures IdBit(mask[..], m) == (m != n && IdBit(was, m))
    {
      BitOfUpdate(was, n, false, m);
    }
  }

  /** `mask_array64`: bits up to a word boundary, whole words, and the bits of the last word. It sets
      exactly the range, also where that is empty, inverted or inside one word. */
  method MaskRange(mask: array<Word64>, maskStart: nat, maskEnd: nat)
    requires maskEnd <= 64 * mask.Length
    modifies mask
    ensures forall m: nat | m < 64 * mask.Length ::
              IdBit(mask[..], m) == (maskStart <= m < maskEnd || IdBit(old(mask[..]), m))
  {
    var firstFull, pastFull := (maskStart + 63) / 64 * 64, maskEnd / 64 * 64;
    var past := if maskEnd >= firstFull then firstFull else maskEnd;
    ghost var was := mask[..];
    var i := maskStart;
    while i < past
      invariant maskStart <= i && (i <= past || i == maskStart)
      invariant forall m: nat | m < 64 * mask.Length :: IdBit(mask[..], m) == (maskStart <= m < i || IdBit(was, m))
    {
      SetIdBit(mask, i);
      i := i + 1;
    }
    if pastFull > firstFull {
      FillWords(mask, firstFull / 64, (pastFull - firstFull) / 64);
    }
    if pastFull < past {
      pastFull := past;
    }
    ghost var mid := mask[..];
    i := pastFull;
    while i < maskEnd
      invariant pastFull <= i && (i <= maskEnd || i == pastFull)
      invariant forall m: nat | m < 64 * mask.Length :: IdBit(mask[..], m) == (pastFull <= m < i || IdBit(mid, m))
    {
      SetIdBit(mask, i);
      i := i + 1;
    }
  }

  method FillWords(mask: array<Word64>, first: nat, words: nat)
    requires first + words <= mask.Length
    modifies mask
    ensures forall m: nat | m < 64 * mask.Length ::
              IdBit(mask[..], m) == (64 * first <= m < 64 * (first + words) || IdBit(old(mask[..]), m))
  {
    ghost var was := mask[..];
    for i := first to first + words
      invariant forall e | 0 <= e < mask.Length :: mask[e] == if first <= e < i then Not(Zero(64)) else was[e]
    {
      mask[i] := Not(Zero(64));
    }
  }
}
