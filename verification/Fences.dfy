/** Fence numbers: a 32-bit counter that skips 0, compared by signed difference. */
module Fences {
  import opened Words

  const PERIOD: nat := 0xFFFF_FFFF

  /** The value of the `s`-th fence drawn from the counter: 1, 2, ..., 2^32 - 1, 1, ... */
  function Value(s: nat): (v: Word)
    ensures v != 0
  {
    s % PERIOD + 1
  }

  /** `m_next_fence` after `draws` fences: the next value, or 0 where the counter has just wrapped. */
  predicate CounterAt(next: Word, draws: nat) {
    if next == 0 then draws > 0 && Value(draws) == 1 else next == Value(draws)
  }

  /** `static_cast<int32_t>(reg - fence) >= 0`. */
  predicate Passed(reg: Word, fence: Word) {
    (reg + WORD_LIMIT - fence) % WORD_LIMIT < 0x8000_0000
  }

  lemma CounterStep(next: Word, draws: nat)
    requires CounterAt(next, draws)
    ensures var fence := if next == 0 then 1 else next;
            fence == Value(draws) && CounterAt((fence + 1) % WORD_LIMIT, draws + 1)
  {
  }

  lemma ValueStep(s: nat, d: nat)
    requires d < PERIOD
    ensures Value(s + d) == if Value(s) + d <= PERIOD then Value(s) + d else Value(s) + d - PERIOD
  {
    var q, r := s / PERIOD, s % PERIOD;
    assert s == q * PERIOD + r;
    if r + d < PERIOD {
      assert s + d == q * PERIOD + (r + d);
      assert (s + d) % PERIOD == r + d;
    } else {
      assert s + d == (q + 1) * PERIOD + (r + d - PERIOD);
      assert (s + d) % PERIOD == r + d - PERIOD;
    }
  }

  /** Values repeat after 2^32 - 1 draws. */
  lemma ValueRepeats(s: nat, t: nat)
    requires s <= t
    ensures Value(s + (t - s) % PERIOD) == Value(t)
  {
    var q, d := (t - s) / PERIOD, (t - s) % PERIOD;
    var q', r := (s + d) / PERIOD, (s + d) % PERIOD;
    assert t == (q + q') * PERIOD + r;
    assert t % PERIOD == r;
  }

  /** Exactly when the comparison says of a draw `t` that is not before draw `s` in the register that it has
      passed: it is `s` again, or 2^31 draws ahead or more. Where the numbers wrapped in between, the
      skipped 0 makes it one less. */
  lemma PassedAhead(s: nat, t: nat)
    requires s <= t
    ensures Passed(Value(s), Value(t)) <==> LooksPassed(s, t)
  {
    var d := (t - s) % PERIOD;
    ValueRepeats(s, t);
    ValueStep(s, d);
  }

  predicate LooksPassed(s: nat, t: nat)
    requires s <= t
  {
    var d := (t - s) % PERIOD;
    d == 0 || d > if Value(t) < Value(s) then 0x7FFF_FFFF else 0x8000_0000
  }

  /** Exactly when the comparison still says of a draw `t` that is not after draw `s` in the register that it
      has passed: less than 2^31 draws lie between them, one less across the wrap. */
  lemma PassedBehind(s: nat, t: nat)
    requires t <= s
    ensures Passed(Value(s), Value(t)) <==> StillPassed(s, t)
  {
    var d := (s - t) % PERIOD;
    ValueRepeats(t, s);
    ValueStep(t, d);
  }

  predicate StillPassed(s: nat, t: nat)
    requires t <= s
  {
    (s - t) % PERIOD < if Value(s) < Value(t) then 0x7FFF_FFFF else 0x8000_0000
  }

  /** For draws that lie near each other the comparison is the order of the draws, across the wrap and the
      skipped 0. */
  lemma PassedNear(s: nat, t: nat)
    requires s - 0x7FFF_FFFE <= t <= s + 0x7FFF_FFFF
    ensures Passed(Value(s), Value(t)) <==> t <= s
  {
    if t <= s {
      ValueStep(t, s - t);
    } else {
      PassedAhead(s, t);
    }
  }

  /** Before any fence was executed the register reads 0. */
  lemma PassedAtFirst(t: nat)
    ensures Passed(0, Value(t)) <==> Value(t) > 0x8000_0000
    ensures t <= 0x7FFF_FFFF ==> !Passed(0, Value(t))
  {
  }

  // ----- the fences in the command stream -----

  /** A fence command that ends at position `end` of the stream, with the number of its draw. */
  datatype Fence = Fence(end: nat, serial: nat)

  ghost predicate Apart(a: Fence, b: Fence, steps: int) {
    a.end + 2 * steps <= b.end && a.serial + steps <= b.serial
  }

  /** Fences stand in the stream in the order of their draws, and each takes two words of it. Draws that are
      not in the stream went to calls of `InsertFence` that failed. */
  ghost predicate FencesOk(fences: seq<Fence>, published: nat, draws: nat) {
    && (forall i: nat | i < |fences| :: 2 <= fences[i].end <= published && fences[i].serial < draws)
    && (forall i: nat, j: nat | i < j < |fences| :: Apart(fences[i], fences[j], j - i))
  }

  /** A new fence ends where the stream ends, at least two words after the one before it. */
  lemma FenceAppendedAt(fences: seq<Fence>, published: nat, draws: nat)
    requires FencesOk(fences, published, draws) && published >= 2
    requires forall i: nat | i < |fences| :: fences[i].end + 2 <= published
    ensures FencesOk(fences + [Fence(published, draws)], published, draws + 1)
  {
    var fences' := fences + [Fence(published, draws)];
    forall i: nat, j: nat | i < j < |fences'|
      ensures Apart(fences'[i], fences'[j], j - i)
    {
      if j < |fences| {
        assert Apart(fences[i], fences[j], j - i);
      } else {
        FencesSpan(fences, published - 2, draws, i);
      }
    }
  }

  lemma {:induction false} FencesSpan(fences: seq<Fence>, published: nat, draws: nat, i: nat)
    requires FencesOk(fences, published, draws) && i < |fences|
    ensures fences[i].end + 2 * (|fences| - 1 - i) <= published
    ensures fences[i].serial + (|fences| - 1 - i) < draws
  {
    if i < |fences| - 1 {
      assert Apart(fences[i], fences[|fences| - 1], |fences| - 1 - i);
    }
  }

  /** Words and draws that are no fences of the stream change nothing. */
  lemma FencesGrow(fences: seq<Fence>, published: nat, published': nat, draws: nat, draws': nat)
    requires FencesOk(fences, published, draws) && published <= published' && draws <= draws'
    ensures FencesOk(fences, published', draws')
  {
  }

  /** Every fence of the stream with this number was executed. */
  ghost predicate AllExecuted(fences: seq<Fence>, fence: Word, executed: nat) {
    forall i: nat | i < |fences| && Value(fences[i].serial) == fence :: fences[i].end <= executed
  }

  /** How many fences lie wholly within the first `executed` words of the stream. */
  function Done(fences: seq<Fence>, executed: nat): (n: nat)
    ensures n <= |fences|
    ensures n > 0 ==> fences[n - 1].end <= executed
    ensures n < |fences| ==> fences[|fences| - 1].end > executed
  {
    if fences == [] then 0
    else if fences[|fences| - 1].end <= executed then |fences|
    else Done(fences[..|fences| - 1], executed)
  }

  /** What the device shows in the FENCE register: the value of the last fence it executed, or 0. */
  function Register(fences: seq<Fence>, executed: nat): Word {
    var n := Done(fences, executed);
    if n == 0 then 0 else Value(fences[n - 1].serial)
  }

  lemma FencesBounded(fences: seq<Fence>, published: nat, draws: nat)
    requires FencesOk(fences, published, draws)
    ensures forall i: nat | i < |fences| :: fences[i].end <= published
  {
  }

  /** A fence beyond what the device executed does not change the register. */
  lemma RegisterAppended(fences: seq<Fence>, f: Fence, executed: nat)
    requires f.end > executed
    ensures Register(fences + [f], executed) == Register(fences, executed)
  {
    assert (fences + [f])[..|fences|] == fences;
  }

  lemma {:induction false} DoneIsPrefix(fences: seq<Fence>, published: nat, draws: nat, executed: nat, n: nat)
    requires FencesOk(fences, published, draws) && n <= |fences|
    ensures forall i: nat | i < n :: fences[i].end <= executed <==> i < Done(fences[..n], executed)
    decreases n
  {
    if n > 0 {
      DoneIsPrefix(fences, published, draws, executed, n - 1);
      assert fences[..n][..n - 1] == fences[..n - 1];
      forall i: nat | i < n - 1
        ensures fences[i].end <= fences[n - 1].end
      {
        assert Apart(fences[i], fences[n - 1], n - 1 - i);
      }
    }
  }

  // ----- what the comparison says of a fence in the stream -----

  /** The draws from the fence in the register on; all of them, before the first. */
  function Since(fences: seq<Fence>, executed: nat, draws: nat): int {
    var n := Done(fences, executed);
    if n == 0 then draws else draws - fences[n - 1].serial
  }

  /** What the comparison says of fence `i`, by the draws alone. */
  predicate Shown(fences: seq<Fence>, executed: nat, i: nat)
    requires i < |fences|
  {
    var n, t := Done(fences, executed), fences[i].serial;
    if n == 0 then Value(t) > 0x8000_0000
    else if fences[n - 1].serial <= t then LooksPassed(fences[n - 1].serial, t)
    else StillPassed(fences[n - 1].serial, t)
  }

  lemma AfterRegister(fences: seq<Fence>, published: nat, draws: nat, executed: nat, i: nat)
    requires FencesOk(fences, published, draws) && i < |fences|
    ensures var n := Done(fences, executed);
            && (fences[i].end <= executed <==> i < n)
            && (0 < n <= i ==> fences[n - 1].serial < fences[i].serial)
            && (i < n ==> fences[i].serial <= fences[n - 1].serial)
  {
    var n := Done(fences, executed);
    assert fences[..|fences|] == fences;
    DoneIsPrefix(fences, published, draws, executed, |fences|);
    if 0 < n <= i {
      assert Apart(fences[n - 1], fences[i], i - (n - 1));
    }
    if i < n - 1 {
      assert Apart(fences[i], fences[n - 1], n - 1 - i);
    }
  }

  /** Exactly what the comparison says of any fence of the stream. Of one that was not executed it wrongly
      says that it has passed if that one is 2^31 draws ahead of the register, or comes round to there; of
      one that was executed it wrongly says that it has not if that one is 2^31 draws behind. */
  lemma PassedExact(fences: seq<Fence>, published: nat, draws: nat, executed: nat, i: nat)
    requires FencesOk(fences, published, draws) && i < |fences|
    ensures Passed(Register(fences, executed), Value(fences[i].serial)) <==> Shown(fences, executed, i)
    ensures fences[i].end <= executed ==>
              var n := Done(fences, executed);
              n > 0 && fences[i].serial <= fences[n - 1].serial &&
              (Shown(fences, executed, i) <==> StillPassed(fences[n - 1].serial, fences[i].serial))
  {
    AfterRegister(fences, published, draws, executed, i);
    var n := Done(fences, executed);
    if n == 0 {
      PassedAtFirst(fences[i].serial);
    } else if fences[n - 1].serial <= fences[i].serial {
      PassedAhead(fences[n - 1].serial, fences[i].serial);
      if fences[i].end <= executed {
        PassedBehind(fences[n - 1].serial, fences[i].serial);
      }
    } else {
      PassedBehind(fences[n - 1].serial, fences[i].serial);
    }
  }

  /** No more than 2^31 draws since the fence in the register. */
  predicate Window(fences: seq<Fence>, executed: nat, draws: nat) {
    Since(fences, executed, draws) <= 0x8000_0000
  }

  /** Within the window a fence that shows as passed was executed. */
  lemma PassedIsExecuted(fences: seq<Fence>, published: nat, draws: nat, executed: nat, i: nat)
    requires FencesOk(fences, published, draws) && i < |fences| && Window(fences, executed, draws)
    requires Passed(Register(fences, executed), Value(fences[i].serial))
    ensures fences[i].end <= executed
  {
    if fences[i].end > executed {
      AfterRegister(fences, published, draws, executed, i);
      var n := Done(fences, executed);
      if n == 0 {
        PassedAtFirst(fences[i].serial);
      } else {
        PassedNear(fences[n - 1].serial, fences[i].serial);
      }
    }
  }

  /** Calls of `InsertFence` since the fence in the register whose command did not get into the stream. */
  function Failed(fences: seq<Fence>, executed: nat, draws: nat): int {
    var n := Done(fences, executed);
    (if n == 0 then draws else draws - fences[n - 1].serial - 1) - (|fences| - n)
  }

  /** What the device executes never makes it more. */
  lemma FailedKept(fences: seq<Fence>, published: nat, draws: nat, executed: nat, executed': nat)
    requires FencesOk(fences, published, draws) && executed <= executed'
    ensures Failed(fences, executed', draws) <= Failed(fences, executed, draws)
  {
    var n, n' := Done(fences, executed), Done(fences, executed');
    if n > 0 {
      AfterRegister(fences, published, draws, executed, n - 1);
      AfterRegister(fences, published, draws, executed', n - 1);
      if n < n' {
        assert Apart(fences[n - 1], fences[n' - 1], n' - n);
      }
    } else if n' > 1 {
      assert Apart(fences[0], fences[n' - 1], n' - 1);
    }
  }

  /** Nor does a fence that reaches the stream. */
  lemma FailedAppended(fences: seq<Fence>, published: nat, draws: nat, executed: nat, end: nat, executed': nat)
    requires FencesOk(fences + [Fence(end, draws)], published, draws + 1) && executed < end && executed <= executed'
    ensures Failed(fences + [Fence(end, draws)], executed', draws + 1) <= Failed(fences, executed, draws)
  {
    var fences' := fences + [Fence(end, draws)];
    assert fences'[..|fences|] == fences;
    assert Done(fences', executed) == Done(fences, executed);
    FailedKept(fences', published, draws + 1, executed, executed');
  }

  /** The fences that are not executed lie in the ring, and that alone keeps the window: all but the draws
      that failed since the register's fence, and those may be 3/4 of 2^31. */
  lemma RingKeepsWindow(fences: seq<Fence>, published: nat, draws: nat, executed: nat)
    requires FencesOk(fences, published, draws) && executed <= published && published - executed < 0x4000_0000
    requires Failed(fences, executed, draws) < 0x6000_0000
    ensures Window(fences, executed, draws)
  {
    var n := Done(fences, executed);
    if n < |fences| {
      AfterRegister(fences, published, draws, executed, n);
      FencesSpan(fences, published, draws, n);
    }
  }

  /** What the device executes only narrows the window. */
  lemma WindowKept(fences: seq<Fence>, published: nat, draws: nat, executed: nat, executed': nat)
    requires FencesOk(fences, published, draws) && executed <= executed' && Window(fences, executed, draws)
    ensures Window(fences, executed', draws)
  {
    var n, n' := Done(fences, executed), Done(fences, executed');
    if n > 0 {
      AfterRegister(fences, published, draws, executed, n - 1);
      AfterRegister(fences, published, draws, executed', n - 1);
    }
  }

  /** Conversely an executed fence shows as passed unless about 2^31 younger ones were executed since. */
  lemma ExecutedIsPassed(fences: seq<Fence>, published: nat, draws: nat, executed: nat, i: nat)
    requires FencesOk(fences, published, draws) && i < |fences| && fences[i].end <= executed
    requires draws - fences[i].serial <= 0x7FFF_FFFF
    ensures Passed(Register(fences, executed), Value(fences[i].serial))
  {
    AfterRegister(fences, published, draws, executed, i);
    var n := Done(fences, executed);
    PassedNear(fences[n - 1].serial, fences[i].serial);
  }

  /** A fence 2^31 draws older than the register's no longer shows as passed. */
  lemma VeryOldFenceForgotten()
    ensures !Passed(Value(0x8000_0000), Value(0))
  {
  }

  /** One draw beyond the window: with 2^31 - 1 failed calls between two fences, the younger one shows as
      passed while only the older one was executed. */
  lemma LostDrawsBreakTheTest()
    ensures var fences, draws := [Fence(2, 0xFFFF_FFFE), Fence(4, 0x1_7FFF_FFFE)], 0x1_7FFF_FFFF;
            && FencesOk(fences, 4, draws) && Since(fences, 2, draws) == 0x8000_0001
            && Failed(fences, 2, draws) == 0x7FFF_FFFF
            && Passed(Register(fences, 2), Value(fences[1].serial)) && fences[1].end > 2
  {
    var fences := [Fence(2, 0xFFFF_FFFE), Fence(4, 0x1_7FFF_FFFE)];
    assert Apart(fences[0], fences[1], 1);
    assert fences[..1] == [fences[0]];
    assert Done(fences[..1], 2) == 1;
    assert Register(fences, 2) == Value(0xFFFF_FFFE);
  }
}
