/** The duration estimator (process/aps_p90_estimator.cpp): a sliding window of samples and
    their 90th percentile. */
module P90 {
  import opened Sequences

  const DEFAULT_CAPACITY: nat := 1000

  function CountAtMost(s: seq<int>, x: int): (n: nat)
    ensures n <= |s|
  {
    if s == [] then 0 else (if s[0] <= x then 1 else 0) + CountAtMost(s[1..], x)
  }

  /** r is the least value such that at least 90% of the samples are at most r, and it is a
      sample itself. */
  ghost predicate IsP90(samples: seq<int>, r: int) {
    r in samples &&
    10 * CountAtMost(samples, r) >= 9 * |samples| &&
    forall x :: x < r ==> 10 * CountAtMost(samples, x) < 9 * |samples|
  }

  lemma P90IsUnique(samples: seq<int>, r: int, r': int)
    requires IsP90(samples, r) && IsP90(samples, r')
    ensures r == r'
  {
    assert r < r' ==> 10 * CountAtMost(samples, r) < 9 * |samples|;
    assert r' < r ==> 10 * CountAtMost(samples, r') < 9 * |samples|;
  }

  lemma {:induction false} CountIsMonotone(s: seq<int>, x: int, y: int)
    requires x <= y
    ensures CountAtMost(s, x) <= CountAtMost(s, y)
  {
    if s != [] {
      CountIsMonotone(s[1..], x, y);
    }
  }

  // ---------------------------------------------------------------- the window

  function Positives(durations: seq<int>): seq<int> {
    if durations == [] then []
    else Positives(durations[..|durations| - 1]) +
         (if durations[|durations| - 1] > 0 then [durations[|durations| - 1]] else [])
  }

  /** Positives keeps the positive durations in order: it goes piece by piece, and keeps a single
      duration from one on. */
  lemma {:induction false} PositivesPieceByPiece(a: seq<int>, b: seq<int>, duration: int)
    ensures Positives(a + b) == Positives(a) + Positives(b)
    ensures Positives([duration]) == if duration >= 1 then [duration] else []
    decreases |b|
  {
    assert [duration][..0] == [];
    if b == [] {
      assert a + b == a;
    } else {
      var rest := b[..|b| - 1];
      assert (a + b)[..|a + b| - 1] == a + rest;
      PositivesPieceByPiece(a, rest, duration);
    }
  }

  /** The window after one more duration: the latest `capacity` of the positive ones. */
  function Record(samples: seq<int>, capacity: nat, duration: int): seq<int> {
    LastN(samples + (if duration > 0 then [duration] else []), capacity)
  }

  function RecordAll(capacity: nat, durations: seq<int>): seq<int> {
    if durations == [] then []
    else Record(RecordAll(capacity, durations[..|durations| - 1]), capacity, durations[|durations| - 1])
  }

  lemma RecordExtends(durations: seq<int>, duration: int, capacity: nat)
    ensures Record(LastN(Positives(durations), capacity), capacity, duration) ==
            LastN(Positives(durations + [duration]), capacity)
  {
    assert (durations + [duration])[..|durations|] == durations;
    LastNOfAppend(Positives(durations), if duration > 0 then [duration] else [], capacity);
  }

  /** Over any history, the window is the last `capacity` of the positive durations added. */
  lemma {:induction false} WindowIsTheLatest(capacity: nat, durations: seq<int>)
    ensures RecordAll(capacity, durations) == LastN(Positives(durations), capacity)
  {
    if durations != [] {
      var before, duration := durations[..|durations| - 1], durations[|durations| - 1];
      WindowIsTheLatest(capacity, before);
      RecordExtends(before, duration, capacity);
      assert durations == before + [duration];
    }
  }

  // ---------------------------------------------------------------- selection

  lemma {:induction false} CountOfAppend(a: seq<int>, b: seq<int>, x: int)
    ensures CountAtMost(a + b, x) == CountAtMost(a, x) + CountAtMost(b, x)
  {
    if a == [] {
      assert a + b == b;
    } else {
      CountOfAppend(a[1..], b, x);
      assert (a + b)[1..] == a[1..] + b;
    }
  }

  lemma {:induction false} CountOfPermutation(a: seq<int>, b: seq<int>, x: int)
    requires multiset(a) == multiset(b)
    ensures CountAtMost(a, x) == CountAtMost(b, x)
  {
    if a == [] {
      assert |multiset(b)| == 0;
    } else {
      assert a == [a[0]] + a[1..];
      assert a[0] in multiset(b);
      var i :| 0 <= i < |b| && b[i] == a[0];
      CountWithoutOne(b, i, x);
      var rest := b[..i] + b[i + 1..];
      assert multiset(a[1..]) == multiset(a) - multiset{a[0]};
      assert multiset(rest) == multiset(b) - multiset{b[i]};
      CountOfPermutation(a[1..], rest, x);
    }
  }

  lemma CountWithoutOne(s: seq<int>, i: nat, x: int)
    requires i < |s|
    ensures multiset(s) == multiset(s[..i] + s[i + 1..]) + multiset{s[i]}
    ensures CountAtMost(s, x) == CountAtMost(s[..i] + s[i + 1..], x) + (if s[i] <= x then 1 else 0)
  {
    assert s == s[..i] + ([s[i]] + s[i + 1..]);
    CountOfAppend(s[..i], [s[i]] + s[i + 1..], x);
    CountOfAppend(s[..i], s[i + 1..], x);
    assert ([s[i]] + s[i + 1..])[1..] == s[i + 1..];
  }

  lemma {:induction false} CountAll(s: seq<int>, x: int)
    ensures (forall i :: 0 <= i < |s| ==> s[i] <= x) ==> CountAtMost(s, x) == |s|
    ensures (forall i :: 0 <= i < |s| ==> s[i] > x) ==> CountAtMost(s, x) == 0
  {
    if s != [] {
      CountAll(s[1..], x);
    }
  }

  ghost predicate Selected(s: seq<int>, k: nat)
    requires k < |s|
  {
    (forall i :: 0 <= i < k ==> s[i] <= s[k]) && (forall j :: k <= j < |s| ==> s[k] <= s[j])
  }

  /** The element of rank ceil(0.9 n) is the 90th percentile. */
  lemma SelectedIsP90(samples: seq<int>, sorted: seq<int>, k: nat)
    requires multiset(sorted) == multiset(samples)
    requires samples != [] && k == (|samples| * 9 + 9) / 10 - 1 && k < |sorted|
    requires Selected(sorted, k)
    ensures IsP90(samples, sorted[k])
  {
    var r := sorted[k];
    assert |multiset(sorted)| == |multiset(samples)|;
    assert r in multiset(sorted);
    assert sorted == sorted[..k + 1] + sorted[k + 1..];
    CountOfAppend(sorted[..k + 1], sorted[k + 1..], r);
    CountAll(sorted[..k + 1], r);
    CountOfPermutation(samples, sorted, r);
    forall x | x < r ensures 10 * CountAtMost(samples, x) < 9 * |samples| {
      assert sorted == sorted[..k] + sorted[k..];
      CountOfAppend(sorted[..k], sorted[k..], x);
      CountAll(sorted[k..], x);
      CountOfPermutation(samples, sorted, x);
    }
  }

  /** `std::nth_element` by selection: every position up to k receives the least of the rest. */
  method NthElement(v: array<int>, k: nat)
    requires k < v.Length
    modifies v
    ensures Selected(v[..], k)
    ensures multiset(v[..]) == multiset(old(v[..]))
  {
    for i := 0 to k + 1
      invariant forall p, q :: 0 <= p < i && p <= q < v.Length ==> v[p] <= v[q]
      invariant multiset(v[..]) == multiset(old(v[..]))
    {
      var least := LeastFrom(v, i);
      v[i], v[least] := v[least], v[i];
    }
  }

  method LeastFrom(v: array<int>, i: nat) returns (least: nat)
    requires i < v.Length
    ensures i <= least < v.Length && forall q :: i <= q < v.Length ==> v[least] <= v[q]
  {
    least := i;
    for j := i + 1 to v.Length
      invariant i <= least < v.Length
      invariant forall q :: i <= q < j ==> v[least] <= v[q]
    {
      if v[j] < v[least] {
        least := j;
      }
    }
  }

  class P90Estimator {
    const capacity: nat
    var samples: seq<int>

    ghost predicate Valid()
      reads this
    {
      |samples| <= capacity && forall i :: 0 <= i < |samples| ==> samples[i] > 0
    }

    constructor (capacity: nat)
      ensures Valid() && this.capacity == capacity && samples == []
    {
      this.capacity, samples := capacity, [];
    }

    method Add(duration: int)
      requires Valid() && (capacity >= 1 || duration <= 0)
      modifies this
      ensures Valid() && samples == Record(old(samples), capacity, duration)
    {
      if duration <= 0 {
        return;
      }
      if |samples| >= capacity {
        samples := samples[1..];
      }
      samples := samples + [duration];
    }

    method Compute() returns (p90: int)
      requires Valid()
      ensures samples == [] ==> p90 == 0
      ensures samples != [] ==> IsP90(samples, p90) && p90 > 0
    {
      var n := |samples|;
      if n == 0 {
        return 0;
      }
      var v := new int[n](i requires 0 <= i < |samples| reads this => samples[i]);
      assert v[..] == samples;
      var idx := (n * 9 + 9) / 10 - 1;
      assert idx <= n - 1;  // the clamp never bites
      idx := if idx < n - 1 then idx else n - 1;
      NthElement(v, idx);
      SelectedIsP90(samples, v[..], idx);
      return v[idx];
    }

    method Size() returns (n: nat)
      ensures n == |samples|
    {
      n := |samples|;
    }
  }
}
