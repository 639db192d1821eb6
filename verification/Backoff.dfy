/** Exponential backoff (foundation/exponential_backoff_iterator.h): the delays the iterator
    yields in 64-bit arithmetic, and the retry loop over them. */
module Backoff {

  const UINT_MAX := 0xFFFF_FFFF
  const WORD64 := 0x1_0000_0000_0000_0000

  /** `unsigned` */
  type Unsigned = n: int | 0 <= n <= UINT_MAX

  function Pow2(n: nat): (p: nat)
    ensures p >= 1
  {
    if n == 0 then 1 else 2 * Pow2(n - 1)
  }

  function Min(a: int, b: int): int {
    if a <= b then a else b
  }

  /** The delay before retry i, jitter aside: the base shifted left in 64 bits, or the cap once
      the shift is too wide, and never above the cap. */
  function Delay(base: Unsigned, i: nat, cap: Unsigned): Unsigned {
    Min(if i < 64 then (base * Pow2(i)) % WORD64 else cap, cap)
  }

  /** A value the iterator may hold for retry i. */
  predicate IsDelay(value: int, base: Unsigned, i: nat, cap: Unsigned, jitter: bool) {
    if jitter then 0 <= value <= Delay(base, i, cap) else value == Delay(base, i, cap)
  }

  class BackoffIterator {
    var base: Unsigned
    var maxRetries: Unsigned
    var capped: Unsigned
    var jitter: bool
    var currentRetry: Unsigned
    var currentValue: Unsigned

    /** While retries remain, the value is the delay before the current one. */
    ghost predicate Valid()
      reads this
    {
      currentRetry < maxRetries ==> IsDelay(currentValue, base, currentRetry, capped, jitter)
    }

    predicate IsEnd()
      reads this
    {
      base == 0 && maxRetries == 0 && currentRetry == UINT_MAX
    }

    constructor (base: Unsigned, maxRetries: Unsigned, capped: Unsigned, jitter: bool)
      ensures Valid() && currentRetry == 0 && IsDelay(currentValue, base, 0, capped, jitter)
      ensures this.base == base && this.maxRetries == maxRetries && this.capped == capped && this.jitter == jitter
    {
      this.base, this.maxRetries, this.capped, this.jitter := base, maxRetries, capped, jitter;
      currentRetry, currentValue := 0, 0;
      new;
      Compute();
    }

    constructor End()
      ensures Valid() && IsEnd()
    {
      base, maxRetries, capped, jitter := 0, 0, 0, false;
      currentRetry, currentValue := UINT_MAX, 0;
    }

    method Compute()
      modifies `currentValue
      ensures IsDelay(currentValue, base, currentRetry, capped, jitter)
    {
      var calculated: int := base;
      if currentRetry < 64 {
        calculated := ShiftLeft(calculated, currentRetry);
      } else {
        calculated := capped;
      }
      if calculated > capped {
        calculated := capped;
      }
      assert calculated == Delay(base, currentRetry, capped);
      if jitter {
        assert 0 <= 0 <= calculated;
        var draw :| 0 <= draw <= calculated;
        calculated := draw;
      }
      currentValue := calculated;
    }

    /** Every iterator past its last retry equals the end iterator, or any other whose retry is
        beyond its maximum; otherwise iterators compare by base and retry. */
    method Equal(other: BackoffIterator) returns (equal: bool)
      ensures other.IsEnd() ==> (equal <==> currentRetry >= maxRetries)
      ensures other.currentRetry <= other.maxRetries ==>
                (equal <==> base == other.base && currentRetry == other.currentRetry)
      ensures other.currentRetry > other.maxRetries && currentRetry < maxRetries ==>
                (equal <==> base == other.base && currentRetry == other.currentRetry)
      ensures other.currentRetry > other.maxRetries && currentRetry >= maxRetries ==> equal
    {
      if currentRetry >= maxRetries && other.currentRetry > other.maxRetries {
        return true;
      }
      return base == other.base && currentRetry == other.currentRetry;
    }

    method Increment()
      requires Valid()
      modifies this`currentRetry, this`currentValue
      ensures Valid()
      ensures currentRetry == if old(currentRetry) < maxRetries then old(currentRetry) + 1 else old(currentRetry)
      ensures currentRetry >= maxRetries ==> currentValue == old(currentValue)
    {
      if currentRetry < maxRetries {
        currentRetry := currentRetry + 1;
        if currentRetry < maxRetries {
          Compute();
        }
      }
    }
  }

  /** `<<=` on a 64-bit word. */
  method ShiftLeft(value: int, count: nat) returns (shifted: int)
    requires 0 <= value < WORD64
    ensures shifted == (value * Pow2(count)) % WORD64 && 0 <= shifted < WORD64
  {
    shifted := value;
    for k := 0 to count
      invariant shifted == (value * Pow2(k)) % WORD64
    {
      var wide := value * Pow2(k);
      assert value * Pow2(k + 1) == 2 * wide;
      DoublingWraps(wide);
      shifted := (2 * shifted) % WORD64;
    }
  }

  lemma DoublingWraps(x: nat)
    ensures (2 * x) % WORD64 == (2 * (x % WORD64)) % WORD64
  {
    var q, r := x / WORD64, x % WORD64;
    if 2 * r < WORD64 {
      RemainderIs(2 * x, 2 * q, 2 * r);
    } else {
      RemainderIs(2 * x, 2 * q + 1, 2 * r - WORD64);
      RemainderIs(2 * r, 1, 2 * r - WORD64);
    }
  }

  lemma RemainderIs(x: nat, q: nat, r: nat)
    requires x == q * WORD64 + r && r < WORD64
    ensures x % WORD64 == r
  {
  }

  /** The retry loop: call, then sleep and call again for each delay of the iterator.
      `outcome(i)` is what call i answers. */
  method ExponentialRetry(base: Unsigned, maxRetries: Unsigned, outcome: nat -> bool, capped: Unsigned, jitter: bool)
    returns (ok: bool, calls: nat, sleeps: seq<int>)
    ensures 1 <= calls == |sleeps| + 1 <= maxRetries + 1
    ensures ok <==> outcome(calls - 1)
    ensures !ok ==> calls == maxRetries + 1
    ensures forall i :: 0 <= i < calls - 1 ==> !outcome(i)
    ensures forall i :: 0 <= i < |sleeps| ==> IsDelay(sleeps[i], base, i, capped, jitter)
    ensures Total(sleeps) <= |sleeps| * capped
    ensures base >= 1 || maxRetries <= 64 || capped == 0 ==> Total(sleeps) <= base * (Pow2(|sleeps|) - 1)
  {
    ok, calls, sleeps := RetryLoop(base, maxRetries, outcome, capped, jitter);
    TotalIsBounded(base, capped, jitter, sleeps);
    GeometricClosedForm(base, |sleeps|);
  }

  method RetryLoop(base: Unsigned, maxRetries: Unsigned, outcome: nat -> bool, capped: Unsigned, jitter: bool)
    returns (ok: bool, calls: nat, sleeps: seq<int>)
    ensures 1 <= calls == |sleeps| + 1 <= maxRetries + 1
    ensures ok <==> outcome(calls - 1)
    ensures !ok ==> calls == maxRetries + 1
    ensures forall i :: 0 <= i < calls - 1 ==> !outcome(i)
    ensures forall i :: 0 <= i < |sleeps| ==> IsDelay(sleeps[i], base, i, capped, jitter)
  {
    calls, sleeps := 1, [];
    if outcome(0) {
      return true, calls, sleeps;
    }
    var it := new BackoffIterator(base, maxRetries, capped, jitter);
    var end := new BackoffIterator.End();
    while true
      invariant it.Valid() && end.IsEnd()
      invariant it.base == base && it.maxRetries == maxRetries && it.capped == capped && it.jitter == jitter
      invariant calls == |sleeps| + 1 && it.currentRetry == |sleeps| <= maxRetries
      invariant forall i :: 0 <= i < calls ==> !outcome(i)
      invariant forall i :: 0 <= i < |sleeps| ==> IsDelay(sleeps[i], base, i, capped, jitter)
      decreases maxRetries - |sleeps|
    {
      var done := it.Equal(end);
      if done {
        break;
      }
      sleeps := sleeps + [it.currentValue];
      calls := calls + 1;
      if outcome(calls - 1) {
        return true, calls, sleeps;
      }
      it.Increment();
    }
    return false, calls, sleeps;
  }

  // ---------------------------------------------------------------- powers of two

  lemma {:induction false} Pow2Sum(a: nat, b: nat)
    ensures Pow2(a + b) == Pow2(a) * Pow2(b)
  {
    if a > 0 {
      Pow2Sum(a - 1, b);
      assert Pow2(a - 1 + b) * 2 == (Pow2(a - 1) * 2) * Pow2(b);
    }
  }

  lemma Pow2Doubles(n: nat, p: nat)
    requires Pow2(n) == p
    ensures Pow2(2 * n) == p * p
  {
    Pow2Sum(n, n);
  }

  lemma Pow2Of64()
    ensures Pow2(32) == UINT_MAX + 1 && Pow2(64) == WORD64
  {
    assert Pow2(8) == 0x100;
    Pow2Doubles(8, 0x100);
    Pow2Doubles(16, 0x1_0000);
    Pow2Doubles(32, 0x1_0000_0000);
  }

  lemma {:induction false} Pow2Grows(a: nat, b: nat)
    requires a <= b
    ensures Pow2(a) <= Pow2(b)
  {
    if a < b {
      Pow2Grows(a, b - 1);
    }
  }

  lemma ScaledGrows(base: nat, a: nat, b: nat)
    requires a <= b
    ensures base * a <= base * b
  {
  }

  // ---------------------------------------------------------------- main results

  lemma RemainderScales(base: nat, q: nat, r: nat, m: nat, p: nat)
    requires base == q * m + r && r < m && m * p == WORD64
    ensures (base * p) % WORD64 == r * p
  {
    assert base * p == q * (m * p) + r * p;
    assert r * p < m * p by {
      ScaledGrows(p, r + 1, m);
      assert p * (r + 1) == r * p + p;
    }
    RemainderIs(base * p, q, r * p);
  }

  /** Shifting by i keeps the 64 - i low bits of the base. */
  lemma ShiftKeepsLowBits(base: nat, i: nat)
    requires i < 64
    ensures (base * Pow2(i)) % WORD64 == (base % Pow2(64 - i)) * Pow2(i)
  {
    var m := Pow2(64 - i);
    WordSplits(i);
    DivMod(base, m);
    RemainderScales(base, base / m, base % m, m, Pow2(i));
  }

  lemma WordSplits(i: nat)
    requires i < 64
    ensures Pow2(64 - i) * Pow2(i) == WORD64
  {
    Pow2Of64();
    Pow2Sum(64 - i, i);
  }

  lemma DivMod(x: nat, m: nat)
    requires m > 0
    ensures x == (x / m) * m + x % m && 0 <= x % m < m
    ensures x < m ==> x % m == x
  {
  }

  /** From shift 32 on, the delay is the cap as soon as a bit is left, and nothing else. */
  lemma WideShiftDelay(base: Unsigned, i: nat, cap: Unsigned)
    requires 32 <= i < 64
    ensures Delay(base, i, cap) == if base % Pow2(64 - i) == 0 then 0 else cap
  {
    ShiftKeepsLowBits(base, i);
    WideWordOf(base % Pow2(64 - i), i);
  }

  lemma WideWordOf(kept: nat, i: nat)
    requires i >= 32
    ensures kept == 0 ==> kept * Pow2(i) == 0
    ensures kept > 0 ==> kept * Pow2(i) > UINT_MAX
  {
    Pow2Of64();
    Pow2Grows(32, i);
    if kept > 0 {
      AtLeastOnce(kept, Pow2(i));
    }
  }

  lemma AtLeastOnce(k: nat, p: nat)
    requires k >= 1
    ensures k * p >= p
  {
  }

  /** A narrower shift loses no bit of a 32-bit base. */
  lemma NarrowShiftFits(base: Unsigned, i: nat)
    requires i <= 32
    ensures base * Pow2(i) < WORD64 && base % Pow2(64 - i) == base
  {
    Pow2Of64();
    Pow2Grows(i, 32);
    SmallProduct(base, Pow2(i));
    Pow2Grows(32, 64 - i);
    DivMod(base, Pow2(64 - i));
  }

  lemma SmallProduct(base: Unsigned, p: nat)
    requires p <= UINT_MAX + 1
    ensures base * p < WORD64
  {
    ScaledGrows(base, p, UINT_MAX + 1);
  }

  /** The shift pushes every bit of a base out of the 64, or, past shift 63, where the code
      stops shifting, there is no bit to begin with. */
  predicate ShiftGoesWrong(base: Unsigned, i: nat) {
    if i < 64 then base > 0 && base % Pow2(64 - i) == 0 else base == 0
  }

  /** The delay is the capped geometric one exactly when the shift does not go wrong or nothing
      is waited for anyway. Where it fails, the delay is zero instead of the cap, or the cap
      instead of zero. */
  lemma ClosedForm(base: Unsigned, i: nat, cap: Unsigned)
    ensures Delay(base, i, cap) == Min(base * Pow2(i), cap) <==> !ShiftGoesWrong(base, i) || cap == 0
    ensures ShiftGoesWrong(base, i) ==> Delay(base, i, cap) == if i < 64 then 0 else cap
  {
    if i <= 32 {
      NarrowClosedForm(base, i, cap);
    } else if i < 64 {
      WideShiftDelay(base, i, cap);
      GeometricReachesCap(base, i, cap);
    } else {
      GeometricReachesCap(base, i, cap);
    }
  }

  lemma NarrowClosedForm(base: Unsigned, i: nat, cap: Unsigned)
    requires i <= 32
    ensures Delay(base, i, cap) == Min(base * Pow2(i), cap) && !ShiftGoesWrong(base, i)
  {
    NarrowShiftFits(base, i);
    WrapOfSmall(base * Pow2(i));
  }

  lemma WrapOfSmall(x: nat)
    requires x < WORD64
    ensures x % WORD64 == x
  {
  }

  lemma GeometricReachesCap(base: Unsigned, i: nat, cap: Unsigned)
    requires i >= 32
    ensures Min(base * Pow2(i), cap) == if base == 0 then 0 else cap
  {
    WideWordOf(base, i);
  }

  /** 32-bit bases cannot overflow before shift 33. */
  lemma ClosedFormForTheFirst33(base: Unsigned, i: nat, cap: Unsigned)
    requires i <= 32
    ensures Delay(base, i, cap) == if base * Pow2(i) <= cap then base * Pow2(i) else cap
    ensures forall value :: IsDelay(value, base, i, cap, true) <==> 0 <= value <= cap && value <= base * Pow2(i)
  {
    NarrowClosedForm(base, i, cap);
  }

  /** Later the delay can fall back to nothing: base 2 shifted by 63 leaves no bit. */
  lemma DelayCollapses(cap: Unsigned)
    ensures Delay(2, 63, cap) == 0 && Delay(2, 62, cap) == cap
  {
    assert Pow2(1) == 2 && Pow2(2) == 4;
    WideShiftDelay(2, 63, cap);
    WideShiftDelay(2, 62, cap);
  }

  function Total(sleeps: seq<int>): int {
    if sleeps == [] then 0 else Total(sleeps[..|sleeps| - 1]) + sleeps[|sleeps| - 1]
  }

  function Delays(base: Unsigned, n: nat, cap: Unsigned): (delays: seq<int>)
    ensures |delays| == n && forall i :: 0 <= i < n ==> IsDelay(delays[i], base, i, cap, false)
  {
    seq(n, i requires 0 <= i < n => Delay(base, i, cap))
  }

  /** A delay is at most the geometric one, save for a zero base past shift 63. */
  lemma DelayAtMost(base: Unsigned, i: nat, cap: Unsigned)
    requires base >= 1 || i < 64 || cap == 0
    ensures Delay(base, i, cap) <= base * Pow2(i)
  {
    ClosedForm(base, i, cap);
  }

  /** base + 2 base + 4 base + ..., n terms. */
  function GeometricSum(base: nat, n: nat): nat {
    if n == 0 then 0 else GeometricSum(base, n - 1) + base * Pow2(n - 1)
  }

  lemma {:induction false} GeometricClosedForm(base: nat, n: nat)
    ensures GeometricSum(base, n) == base * (Pow2(n) - 1)
  {
    if n > 0 {
      GeometricClosedForm(base, n - 1);
      assert base * (2 * Pow2(n - 1) - 1) == base * (Pow2(n - 1) - 1) + base * Pow2(n - 1);
    }
  }

  lemma {:induction false} TotalAtMostEach(s: seq<int>, each: nat)
    requires forall i :: 0 <= i < |s| ==> 0 <= s[i] <= each
    ensures 0 <= Total(s) <= |s| * each
  {
    if s != [] {
      var n := |s| - 1;
      TotalAtMostEach(s[..n], each);
      assert |s| * each == n * each + each;
    }
  }

  lemma {:induction false} TotalAtMostGeometric(s: seq<int>, base: nat)
    requires forall i :: 0 <= i < |s| ==> s[i] <= base * Pow2(i)
    ensures Total(s) <= GeometricSum(base, |s|)
  {
    if s != [] {
      var n := |s| - 1;
      TotalAtMostGeometric(s[..n], base);
    }
  }

  /** With any jitter, n sleeps take at most n times the cap, and, unless the base is zero and
      there are more than 64 of them, at most the whole geometric sum, which is
      base * (2^n - 1) by GeometricClosedForm. */
  lemma TotalIsBounded(base: Unsigned, cap: Unsigned, jitter: bool, sleeps: seq<int>)
    requires forall i :: 0 <= i < |sleeps| ==> IsDelay(sleeps[i], base, i, cap, jitter)
    ensures 0 <= Total(sleeps) <= |sleeps| * cap
    ensures base >= 1 || |sleeps| <= 64 || cap == 0 ==> Total(sleeps) <= GeometricSum(base, |sleeps|)
  {
    forall i | 0 <= i < |sleeps|
      ensures 0 <= sleeps[i] <= cap
      ensures base >= 1 || i < 64 || cap == 0 ==> sleeps[i] <= base * Pow2(i)
    {
      assert IsDelay(sleeps[i], base, i, cap, jitter);
      if base >= 1 || i < 64 || cap == 0 {
        DelayAtMost(base, i, cap);
      }
    }
    TotalAtMostEach(sleeps, cap);
    if base >= 1 || |sleeps| <= 64 || cap == 0 {
      TotalAtMostGeometric(sleeps, base);
    }
  }

  /** Without jitter, the geometric bound on the whole wait holds exactly in those cases. */
  lemma TotalBoundIsExact(base: Unsigned, n: nat, cap: Unsigned)
    ensures Total(Delays(base, n, cap)) <= GeometricSum(base, n) <==> base >= 1 || n <= 64 || cap == 0
  {
    if base >= 1 || n <= 64 || cap == 0 {
      TotalIsBounded(base, cap, false, Delays(base, n, cap));
    } else {
      ZeroBaseWaits(n, cap);
      GeometricClosedForm(0, n);
    }
  }

  lemma ZeroBaseWaits(n: nat, cap: Unsigned)
    requires n > 64
    ensures Total(Delays(0, n, cap)) >= cap
  {
    var delays := Delays(0, n, cap);
    assert delays[..n - 1] == Delays(0, n - 1, cap);
    TotalIsBounded(0, cap, false, Delays(0, n - 1, cap));
    assert IsDelay(delays[n - 1], 0, n - 1, cap, false);
  }
}
