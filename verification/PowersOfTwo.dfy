/** Powers of two, alignment and buddies on page numbers.

    The allocator computes with `1 << k`, `x & ((1 << k) - 1)` and `x ^ (1 << k)`. Here these are
    functions that walk the binary digits of their argument; `AlignedIsMod` ties them to arithmetic. */
module PowersOfTwo {

  /** `1 << k`. */
  function Pow2(k: nat): (r: nat)
    ensures r >= 1
  {
    if k == 0 then 1 else 2 * Pow2(k - 1)
  }

  /** The low `k` bits of `x` are zero, i.e. `(x & ((1 << k) - 1)) == 0`. */
  predicate Aligned(x: nat, k: nat) {
    k == 0 || (x % 2 == 0 && Aligned(x / 2, k - 1))
  }

  /** `x ^ (1 << k)`. */
  function FlipBit(x: nat, k: nat): nat {
    if k == 0 then (if x % 2 == 0 then x + 1 else x - 1)
    else 2 * FlipBit(x / 2, k - 1) + x % 2
  }

  /** `x & ~((1 << k) - 1)`. */
  function AlignDown(x: nat, k: nat): (r: nat)
    ensures Aligned(r, k)
    ensures r <= x < r + Pow2(k)
  {
    if k == 0 then x
    else
      var half := AlignDown(x / 2, k - 1);
      assert 2 * half % 2 == 0 && 2 * half / 2 == half;
      2 * half
  }

  lemma DoublePow2(k: nat)
    ensures Pow2(k + 1) == 2 * Pow2(k)
  {
  }

  lemma {:induction false} MulAtLeast(d: nat, m: nat)
    requires d >= 1
    ensures d * m >= m
  {
    if d > 1 {
      MulAtLeast(d - 1, m);
      assert d * m == (d - 1) * m + m;
    }
  }

  lemma ModUnique(x: nat, m: nat, q: nat, r: nat)
    requires m > 0 && r < m && x == q * m + r
    ensures x % m == r
  {
    var q', r' := x / m, x % m;
    assert x == q' * m + r';
    assert (q - q') * m == q * m - q' * m;
    assert (q' - q) * m == q' * m - q * m;
    if q > q' {
      MulAtLeast(q - q', m);
    } else if q < q' {
      MulAtLeast(q' - q, m);
    }
  }

  lemma DoubleMod(h: nat, b: nat, m: nat)
    requires m > 0 && b < 2
    ensures (2 * h + b) % (2 * m) == 2 * (h % m) + b
  {
    var q, r := h / m, h % m;
    assert h == q * m + r;
    assert q * (2 * m) == 2 * (q * m);
    ModUnique(2 * h + b, 2 * m, q, 2 * r + b);
  }

  lemma {:induction false} AlignedIsMod(x: nat, k: nat)
    ensures Aligned(x, k) <==> x % Pow2(k) == 0
  {
    if k > 0 {
      AlignedIsMod(x / 2, k - 1);
      DoubleMod(x / 2, x % 2, Pow2(k - 1));
      assert x == 2 * (x / 2) + x % 2;
    }
  }

  /** Alignment to a larger power implies alignment to a smaller one. */
  lemma {:induction false} AlignedWeaken(x: nat, j: nat, k: nat)
    requires j <= k && Aligned(x, k)
    ensures Aligned(x, j)
  {
    if j > 0 {
      AlignedWeaken(x / 2, j - 1, k - 1);
    }
  }

  /** Two different multiples of 2^k are at least 2^k apart. */
  lemma {:induction false} AlignedGap(x: nat, y: nat, k: nat)
    requires Aligned(x, k) && Aligned(y, k) && x < y
    ensures x + Pow2(k) <= y
  {
    if k > 0 {
      AlignedGap(x / 2, y / 2, k - 1);
    }
  }

  lemma {:induction false} AlignedStep(x: nat, k: nat)
    requires Aligned(x, k)
    ensures Aligned(x + Pow2(k), k)
    ensures x >= Pow2(k) ==> Aligned(x - Pow2(k), k)
  {
    if k > 0 {
      AlignedStep(x / 2, k - 1);
      assert (x + Pow2(k)) / 2 == x / 2 + Pow2(k - 1);
      if x >= Pow2(k) {
        assert (x - Pow2(k)) / 2 == x / 2 - Pow2(k - 1);
      }
    }
  }

  lemma {:induction false} Pow2Monotone(j: nat, k: nat)
    requires j <= k
    ensures Pow2(j) <= Pow2(k)
    ensures j < k ==> 2 * Pow2(j) <= Pow2(k)
  {
    if j < k {
      Pow2Monotone(j, k - 1);
    }
  }

  /** Aligned blocks either nest or are disjoint. */
  lemma Nested(s: nat, j: nat, t: nat, k: nat, p: nat)
    requires j <= k && Aligned(s, j) && Aligned(t, k)
    requires s <= p < s + Pow2(j) && t <= p < t + Pow2(k)
    ensures t <= s && s + Pow2(j) <= t + Pow2(k)
  {
    AlignedWeaken(t, j, k);
    AlignedStep(t, k);
    AlignedWeaken(t + Pow2(k), j, k);
    if s < t {
      AlignedGap(s, t, j);
    }
    AlignedGap(s, t + Pow2(k), j);
  }

  /** The block that holds `p` at order `k` is determined by `p`. */
  lemma AlignDownUnique(s: nat, k: nat, p: nat)
    requires Aligned(s, k) && s <= p < s + Pow2(k)
    ensures s == AlignDown(p, k)
  {
    Nested(s, k, AlignDown(p, k), k, p);
  }

  lemma {:induction false} FlipTwice(x: nat, k: nat)
    ensures FlipBit(FlipBit(x, k), k) == x
  {
    if k > 0 {
      FlipTwice(x / 2, k - 1);
      assert FlipBit(x, k) / 2 == FlipBit(x / 2, k - 1) && FlipBit(x, k) % 2 == x % 2;
    }
  }

  /** `x ^ (1 << k)` of an aligned `x` is the other half of the block of twice the size. */
  lemma {:induction false} FlipBitIsBuddy(x: nat, k: nat)
    requires Aligned(x, k)
    ensures Aligned(FlipBit(x, k), k)
    ensures FlipBit(x, k) == if Aligned(x, k + 1) then x + Pow2(k) else x - Pow2(k)
    ensures FlipBit(FlipBit(x, k), k) == x
    ensures Aligned(x, k + 1) <==> !Aligned(FlipBit(x, k), k + 1)
    ensures !Aligned(x, k + 1) ==> x >= Pow2(k)
  {
    FlipTwice(x, k);
    if k == 0 {
      assert Aligned(x, 1) <==> x % 2 == 0;
      assert Aligned(FlipBit(x, 0), 1) <==> FlipBit(x, 0) % 2 == 0;
    } else {
      FlipBitIsBuddy(x / 2, k - 1);
      assert FlipBit(x, k) == 2 * FlipBit(x / 2, k - 1) && FlipBit(x, k) / 2 == FlipBit(x / 2, k - 1);
      assert Aligned(x, k + 1) <==> Aligned(x / 2, k);
      assert Aligned(FlipBit(x, k), k + 1) <==> Aligned(FlipBit(x / 2, k - 1), k);
    }
  }
}
