/** What an LRU cache does, on values: a list of entries, most recently used first.
    The class in Lru.dfy is proved to move along this list; the laws are proved here. */
module LruModel {
  import opened Sequences

  datatype Entry<K, V> = Entry(key: K, value: V)

  datatype Op<K, V> = Get(key: K) | Put(key: K, value: V) | Erase(key: K)

  function Without<K(==), V>(s: seq<Entry<K, V>>, k: K): seq<Entry<K, V>> {
    if s == [] then []
    else if s[0].key == k then Without(s[1..], k)
    else [s[0]] + Without(s[1..], k)
  }

  function Lookup<K(==), V>(s: seq<Entry<K, V>>, k: K): Option<V> {
    if s == [] then None
    else if s[0].key == k then Some(s[0].value)
    else Lookup(s[1..], k)
  }

  function Step<K(==), V>(s: seq<Entry<K, V>>, capacity: nat, op: Op<K, V>): seq<Entry<K, V>> {
    var found := Lookup(s, op.key);
    match op
    case Get(k) => if found.None? then s else [Entry(k, found.value)] + Without(s, k)
    case Put(k, v) =>
      if found.Some? then [Entry(k, v)] + Without(s, k)
      else [Entry(k, v)] + (if 0 < |s| == capacity then s[..|s| - 1] else s)
    case Erase(k) => Without(s, k)
  }

  /** The list after a sequence of operations on an empty cache. */
  function Run<K(==), V>(capacity: nat, ops: seq<Op<K, V>>): seq<Entry<K, V>> {
    if ops == [] then []
    else Step(Run(capacity, ops[..|ops| - 1]), capacity, ops[|ops| - 1])
  }

  ghost predicate DistinctKeys<K(!new), V(!new)>(s: seq<Entry<K, V>>) {
    forall i, j :: 0 <= i < j < |s| ==> s[i].key != s[j].key
  }

  // ---------------------------------------------------------------- basic facts

  lemma {:induction false} WithoutFacts<K(!new), V(!new)>(s: seq<Entry<K, V>>, k: K)
    ensures |Without(s, k)| <= |s|
    ensures forall e :: e in Without(s, k) <==> e in s && e.key != k
    ensures Lookup(s, k).None? ==> Without(s, k) == s
    ensures Lookup(s, k).Some? ==> |Without(s, k)| < |s|
  {
    if s != [] {
      WithoutFacts(s[1..], k);
      assert s == [s[0]] + s[1..];
    }
  }

  lemma WithoutKeepsDistinct<K(!new), V(!new)>(s: seq<Entry<K, V>>, k: K)
    requires DistinctKeys(s)
    ensures DistinctKeys(Without(s, k))
  {
    KeysOfWithout(s, k);
    MinusFacts(KeysOf(s), k);
    forall i, j | 0 <= i < j < |Without(s, k)| ensures Without(s, k)[i].key != Without(s, k)[j].key {
      assert Minus(KeysOf(s), k)[i] != Minus(KeysOf(s), k)[j];
    }
  }

  lemma {:induction false} WithoutMissing<K, V>(s: seq<Entry<K, V>>, k: K)
    requires Lookup(s, k).None?
    ensures Without(s, k) == s
  {
    if s != [] {
      WithoutMissing(s[1..], k);
    }
  }

  lemma {:induction false} WithoutOne<K(!new), V(!new)>(s: seq<Entry<K, V>>, i: nat)
    requires DistinctKeys(s) && i < |s|
    ensures Without(s, s[i].key) == s[..i] + s[i + 1..]
  {
    if i == 0 {
      LookupMissing(s[1..], s[0].key);
      WithoutMissing(s[1..], s[0].key);
    } else {
      assert s[i].key != s[0].key;
      assert s[1..][i - 1] == s[i];
      WithoutOne(s[1..], i - 1);
      assert s[..i] == [s[0]] + s[1..][..i - 1];
      assert s[1..][i..] == s[i + 1..];
    }
  }

  lemma {:induction false} LookupMissing<K, V>(s: seq<Entry<K, V>>, k: K)
    requires forall i :: 0 <= i < |s| ==> s[i].key != k
    ensures Lookup(s, k).None?
  {
    if s != [] {
      LookupMissing(s[1..], k);
    }
  }

  lemma {:induction false} LookupFacts<K(!new), V(!new)>(s: seq<Entry<K, V>>, k: K)
    ensures Lookup(s, k).Some? ==> Entry(k, Lookup(s, k).value) in s
    ensures Lookup(s, k).None? ==> forall e :: e in s ==> e.key != k
    ensures DistinctKeys(s) ==> forall v :: Entry(k, v) in s ==> Lookup(s, k) == Some(v)
  {
    if s != [] {
      LookupFacts(s[1..], k);
      assert s == [s[0]] + s[1..];
      if DistinctKeys(s) {
        assert DistinctKeys(s[1..]);
        forall v | Entry(k, v) in s[1..] ensures s[0].key != k {
          var i :| 0 <= i < |s[1..]| && s[1..][i] == Entry(k, v);
          assert s[i + 1].key == k;
        }
      }
    }
  }

  lemma StepKeepsShape<K(!new), V(!new)>(s: seq<Entry<K, V>>, capacity: nat, op: Op<K, V>)
    requires DistinctKeys(s) && |s| <= capacity && capacity >= 1
    ensures DistinctKeys(Step(s, capacity, op)) && |Step(s, capacity, op)| <= capacity
  {
    WithoutFacts(s, op.key);
    WithoutKeepsDistinct(s, op.key);
    LookupFacts(s, op.key);
  }

  lemma {:induction false} RunHasShape<K(!new), V(!new)>(capacity: nat, ops: seq<Op<K, V>>)
    requires capacity >= 1
    ensures DistinctKeys(Run(capacity, ops)) && |Run(capacity, ops)| <= capacity
  {
    if ops != [] {
      RunHasShape(capacity, ops[..|ops| - 1]);
      StepKeepsShape(Run(capacity, ops[..|ops| - 1]), capacity, ops[|ops| - 1]);
    }
  }

  /** What an operation on a listed key does, by its position i: all other entries keep their
      values and their order. */
  lemma StepOnListed<K(!new), V(!new)>(s: seq<Entry<K, V>>, capacity: nat, op: Op<K, V>, i: nat)
    requires DistinctKeys(s) && i < |s| && s[i].key == op.key
    ensures Lookup(s, op.key) == Some(s[i].value)
    ensures var others := s[..i] + s[i + 1..];
            Step(s, capacity, op) ==
              match op
              case Get(_) => [s[i]] + others
              case Put(k, v) => [Entry(k, v)] + others
              case Erase(_) => others
  {
    WithoutOne(s, i);
    LookupFacts(s, op.key);
    assert s[i] == Entry(op.key, s[i].value) && s[i] in s;
  }

  /** ... and on a key that is not listed: only a put changes anything, and pushes out the last
      entry exactly when the list is full. */
  lemma StepOnMissing<K(!new), V(!new)>(s: seq<Entry<K, V>>, capacity: nat, op: Op<K, V>)
    requires |s| <= capacity && capacity >= 1
    requires forall i :: 0 <= i < |s| ==> s[i].key != op.key
    ensures Lookup(s, op.key) == None
    ensures Step(s, capacity, op) ==
              match op
              case Get(_) => s
              case Put(k, v) => [Entry(k, v)] + (if |s| == capacity then s[..capacity - 1] else s)
              case Erase(_) => s
  {
    LookupMissing(s, op.key);
    WithoutMissing(s, op.key);
  }

  // ---------------------------------------------------------------- inclusion

  /** `small` is a subsequence of `large`. */
  ghost predicate Embeds<T>(small: seq<T>, large: seq<T>) {
    small == [] ||
    (large != [] &&
     ((small[0] == large[0] && Embeds(small[1..], large[1..])) || Embeds(small, large[1..])))
  }

  lemma {:induction false} EmbedsFacts<T(!new)>(small: seq<T>, large: seq<T>)
    requires Embeds(small, large)
    ensures |small| <= |large|
    ensures forall x :: x in small ==> x in large
  {
    if small != [] {
      assert small == [small[0]] + small[1..];
      assert large == [large[0]] + large[1..];
      if small[0] == large[0] && Embeds(small[1..], large[1..]) {
        EmbedsFacts(small[1..], large[1..]);
      } else {
        EmbedsFacts(small, large[1..]);
      }
    }
  }

  lemma EmbedsCons<T>(x: T, small: seq<T>, large: seq<T>)
    requires Embeds(small, large)
    ensures Embeds([x] + small, [x] + large)
    ensures Embeds(small, [x] + large)
  {
    assert ([x] + small)[1..] == small;
    assert ([x] + large)[1..] == large;
  }

  lemma {:induction false} EmbedsWithout<K, V>(small: seq<Entry<K, V>>, large: seq<Entry<K, V>>, k: K)
    requires Embeds(small, large)
    ensures Embeds(Without(small, k), Without(large, k))
  {
    if small != [] {
      if small[0] == large[0] && Embeds(small[1..], large[1..]) {
        EmbedsWithout(small[1..], large[1..], k);
        EmbedsCons(large[0], Without(small[1..], k), Without(large[1..], k));
      } else {
        EmbedsWithout(small, large[1..], k);
        EmbedsCons(large[0], Without(small, k), Without(large[1..], k));
      }
    }
  }

  /** Dropping the last entry of the small list, or of both, keeps the embedding. */
  lemma {:induction false} EmbedsDropLast<T>(small: seq<T>, large: seq<T>)
    requires small != [] && Embeds(small, large)
    ensures large != []
    ensures Embeds(small[..|small| - 1], large[..|large| - 1])
    ensures Embeds(small[..|small| - 1], large)
  {
    var small', large' := small[..|small| - 1], large[..|large| - 1];
    if |small| > 1 {
      if small[0] == large[0] && Embeds(small[1..], large[1..]) {
        EmbedsDropLast(small[1..], large[1..]);
        assert small'[1..] == small[1..][..|small| - 2];
        assert large'[1..] == large[1..][..|large| - 2];
      } else {
        EmbedsDropLast(small, large[1..]);
        assert large'[1..] == large[1..][..|large| - 2];
      }
    }
  }

  lemma InclusionStep<K(!new), V(!new)>(small: seq<Entry<K, V>>, c: nat, large: seq<Entry<K, V>>, d: nat, op: Op<K, V>)
    requires 1 <= c <= d && |small| <= c && |large| <= d
    requires DistinctKeys(small) && DistinctKeys(large)
    requires Embeds(small, large) && |large| - |small| <= d - c
    ensures Embeds(Step(small, c, op), Step(large, d, op))
    ensures |Step(large, d, op)| - |Step(small, c, op)| <= d - c
  {
    var k := op.key;
    WithoutFacts(small, k);
    WithoutFacts(large, k);
    LookupFacts(small, k);
    LookupFacts(large, k);
    EmbedsFacts(small, large);
    EmbedsWithout(small, large, k);
    WithoutCount(small, k);
    WithoutCount(large, k);
    if Lookup(small, k).Some? {
      assert Lookup(large, k) == Lookup(small, k);
    }
    match op {
      case Get(_) =>
        if Lookup(large, k).Some? {
          EmbedsCons(Entry(k, Lookup(large, k).value), Without(small, k), Without(large, k));
        }
      case Put(_, v) =>
        if Lookup(large, k).Some? {
          EmbedsCons(Entry(k, v), Without(small, k), Without(large, k));
          if Lookup(small, k).None? && |small| == c {
            EmbedsDropLast(small, Without(large, k));
            EmbedsCons(Entry(k, v), small[..c - 1], Without(large, k));
          }
        } else {
          EmbedsCons(Entry(k, v), small, large);
          if |small| == c {
            EmbedsDropLast(small, large);
            EmbedsCons(Entry(k, v), small[..c - 1], large[..|large| - 1]);
            EmbedsCons(Entry(k, v), small[..c - 1], large);
          }
        }
      case Erase(_) =>
    }
  }

  lemma {:induction false} WithoutCount<K(!new), V(!new)>(s: seq<Entry<K, V>>, k: K)
    requires DistinctKeys(s)
    ensures |Without(s, k)| == |s| - (if Lookup(s, k).Some? then 1 else 0)
  {
    if s != [] {
      assert DistinctKeys(s[1..]);
      if s[0].key == k {
        LookupMissing(s[1..], k);
        WithoutMissing(s[1..], k);
      } else {
        WithoutCount(s[1..], k);
      }
    }
  }

  /** Inclusion: whatever operations two caches see, the contents of the smaller one are a
      subsequence of those of the larger one, and the larger is ahead by no more than the
      difference of the capacities. */
  lemma {:induction false} Inclusion<K(!new), V(!new)>(c: nat, d: nat, ops: seq<Op<K, V>>)
    requires 1 <= c <= d
    ensures Embeds(Run(c, ops), Run(d, ops))
    ensures |Run(d, ops)| - |Run(c, ops)| <= d - c
  {
    if ops != [] {
      var before := ops[..|ops| - 1];
      Inclusion(c, d, before);
      RunHasShape(c, before);
      RunHasShape(d, before);
      InclusionStep(Run(c, before), c, Run(d, before), d, ops[|ops| - 1]);
    }
  }

  /** A hit in the smaller cache is a hit in the larger one, with the same value. */
  lemma HitsAreMonotone<K(!new), V(!new)>(c: nat, d: nat, ops: seq<Op<K, V>>, k: K)
    requires 1 <= c <= d
    requires Lookup(Run(c, ops), k).Some?
    ensures Lookup(Run(d, ops), k) == Lookup(Run(c, ops), k)
  {
    Inclusion(c, d, ops);
    RunHasShape(d, ops);
    EmbedsFacts(Run(c, ops), Run(d, ops));
    LookupFacts(Run(c, ops), k);
    LookupFacts(Run(d, ops), k);
  }

  // ---------------------------------------------------------------- recency

  function KeysOf<K, V>(s: seq<Entry<K, V>>): (keys: seq<K>)
    ensures |keys| == |s|
  {
    seq(|s|, i requires 0 <= i < |s| => s[i].key)
  }

  function Minus<K(==)>(keys: seq<K>, k: K): seq<K> {
    if keys == [] then []
    else if keys[0] == k then Minus(keys[1..], k)
    else [keys[0]] + Minus(keys[1..], k)
  }

  function First<T>(s: seq<T>, n: nat): seq<T> {
    if |s| <= n then s else s[..n]
  }

  /** The keys a history touches, oldest first: those put, and those found by a get. */
  function Touches<K(==), V>(capacity: nat, ops: seq<Op<K, V>>): seq<K> {
    if ops == [] then []
    else
      var before, op := ops[..|ops| - 1], ops[|ops| - 1];
      var rest := Touches(capacity, before);
      if op.Put? || (op.Get? && Lookup(Run(capacity, before), op.key).Some?) then rest + [op.key]
      else rest
  }

  /** The distinct keys of a history, the latest touched first. */
  function LatestFirst<K(==)>(touches: seq<K>): seq<K> {
    if touches == [] then []
    else
      var k := touches[|touches| - 1];
      [k] + Minus(LatestFirst(touches[..|touches| - 1]), k)
  }

  function LastPut<K(==), V>(ops: seq<Op<K, V>>, k: K): Option<V> {
    if ops == [] then None
    else
      var op := ops[|ops| - 1];
      if op.Put? && op.key == k then Some(op.value) else LastPut(ops[..|ops| - 1], k)
  }

  lemma {:induction false} MinusFacts<K(!new)>(keys: seq<K>, k: K)
    ensures forall x :: x in Minus(keys, k) <==> x in keys && x != k
    ensures Distinct(keys) ==> Distinct(Minus(keys, k))
    ensures k !in keys ==> Minus(keys, k) == keys
  {
    if keys != [] {
      MinusFacts(keys[1..], k);
      assert keys == [keys[0]] + keys[1..];
      forall i, j | Distinct(keys) && 0 <= i < j < |Minus(keys, k)| ensures Minus(keys, k)[i] != Minus(keys, k)[j] {
        assert Distinct(keys[1..]);
        assert Minus(keys, k)[j] in Minus(keys[1..], k);
      }
    }
  }

  lemma {:induction false} MinusOfAppend<K(!new)>(a: seq<K>, b: seq<K>, k: K)
    ensures Minus(a + b, k) == Minus(a, k) + Minus(b, k)
  {
    if a == [] {
      assert a + b == b;
    } else {
      var head := if a[0] == k then [] else [a[0]];
      calc {
        Minus(a + b, k);
        { assert (a + b)[1..] == a[1..] + b && (a + b)[0] == a[0]; }
        head + Minus(a[1..] + b, k);
        { MinusOfAppend(a[1..], b, k); }
        head + (Minus(a[1..], k) + Minus(b, k));
        (head + Minus(a[1..], k)) + Minus(b, k);
      }
    }
  }

  lemma {:induction false} KeysOfWithout<K(!new), V(!new)>(s: seq<Entry<K, V>>, k: K)
    ensures KeysOf(Without(s, k)) == Minus(KeysOf(s), k)
  {
    if s != [] {
      KeysOfWithout(s[1..], k);
      assert KeysOf(s)[1..] == KeysOf(s[1..]);
      assert KeysOf([s[0]] + Without(s[1..], k)) == [s[0].key] + KeysOf(Without(s[1..], k));
    }
  }

  lemma LookupByKey<K(!new), V(!new)>(s: seq<Entry<K, V>>, k: K)
    ensures Lookup(s, k).Some? <==> k in KeysOf(s)
  {
    LookupFacts(s, k);
    if Lookup(s, k).Some? {
      var i :| 0 <= i < |s| && s[i] == Entry(k, Lookup(s, k).value);
      assert KeysOf(s)[i] == k;
    }
  }

  lemma {:induction false} LatestFirstIsDistinct<K(!new)>(touches: seq<K>)
    ensures Distinct(LatestFirst(touches))
    ensures forall k :: k in LatestFirst(touches) <==> k in touches
  {
    if touches != [] {
      var before, k := touches[..|touches| - 1], touches[|touches| - 1];
      LatestFirstIsDistinct(before);
      MinusFacts(LatestFirst(before), k);
      assert touches == before + [k];
    }
  }

  /** A touch of k as it shows in the keys alone. */
  function TouchKeys<K(==)>(keys: seq<K>, capacity: nat, k: K): seq<K> {
    [k] + (if k in keys then Minus(keys, k)
           else if 0 < |keys| == capacity then keys[..|keys| - 1]
           else keys)
  }

  lemma KeysOfPut<K(!new), V(!new)>(s: seq<Entry<K, V>>, capacity: nat, k: K, v: V)
    ensures KeysOf(Step(s, capacity, Put(k, v))) == TouchKeys(KeysOf(s), capacity, k)
  {
    var s' := Step(s, capacity, Put(k, v));
    LookupByKey(s, k);
    KeysOfWithout(s, k);
    assert s' == [Entry(k, v)] + s'[1..];
    assert KeysOf(s') == [k] + KeysOf(s'[1..]);
  }

  /** Touching k within the first `capacity` keys gives the first `capacity` keys of the
      order with k touched. */
  lemma TouchOfFirst<K(!new)>(recency: seq<K>, capacity: nat, k: K)
    requires capacity >= 1 && Distinct(recency)
    ensures TouchKeys(First(recency, capacity), capacity, k) == First([k] + Minus(recency, k), capacity)
  {
    var ahead := First(recency, capacity);
    var behind := recency[|ahead|..];
    assert recency == ahead + behind;
    DistinctParts(ahead, behind, k);
    TouchOfParts(ahead, behind, capacity, k);
  }

  lemma DistinctParts<K(!new)>(ahead: seq<K>, behind: seq<K>, k: K)
    requires Distinct(ahead + behind)
    ensures Distinct(ahead) && (k in ahead ==> k !in behind)
  {
    var whole := ahead + behind;
    forall i, j | 0 <= i < |ahead| && 0 <= j < |behind| ensures ahead[i] != behind[j] {
      assert whole[i] != whole[|ahead| + j];
    }
    forall i, j | 0 <= i < j < |ahead| ensures ahead[i] != ahead[j] {
      assert whole[i] != whole[j];
    }
  }

  lemma TouchOfParts<K(!new)>(ahead: seq<K>, behind: seq<K>, capacity: nat, k: K)
    requires 1 <= capacity && |ahead| <= capacity && (behind != [] ==> |ahead| == capacity)
    requires Distinct(ahead) && (k in ahead ==> k !in behind)
    ensures TouchKeys(ahead, capacity, k) == First([k] + Minus(ahead + behind, k), capacity)
  {
    MinusOfAppend(ahead, behind, k);
    MinusLength(ahead, k);
    MinusFacts(ahead, k);
    MinusFacts(behind, k);
    FirstOfTouched(ahead, behind, capacity, k);
  }

  lemma FirstOfTouched<K(!new)>(ahead: seq<K>, behind: seq<K>, capacity: nat, k: K)
    requires 1 <= capacity && |ahead| <= capacity && (behind != [] ==> |ahead| == capacity)
    requires |Minus(ahead, k)| == |ahead| - (if k in ahead then 1 else 0)
    requires if k in ahead then Minus(behind, k) == behind else Minus(ahead, k) == ahead
    ensures TouchKeys(ahead, capacity, k) == First([k] + (Minus(ahead, k) + Minus(behind, k)), capacity)
  {
    var whole := [k] + (Minus(ahead, k) + Minus(behind, k));
    if |ahead| < capacity {
      assert whole == [k] + Minus(ahead, k);
    } else if k in ahead {
      assert whole[..capacity] == [k] + Minus(ahead, k);
    } else {
      assert whole[..capacity] == [k] + ahead[..capacity - 1];
    }
  }

  lemma {:induction false} MinusLength<K(!new)>(keys: seq<K>, k: K)
    requires Distinct(keys)
    ensures |Minus(keys, k)| == |keys| - (if k in keys then 1 else 0)
  {
    if keys != [] {
      assert keys == [keys[0]] + keys[1..];
      MinusLength(keys[1..], k);
    }
  }

  /** Without erasures, the cache holds the `capacity` latest touched keys, latest first. */
  lemma {:induction false} KeysAreTheLatest<K(!new), V(!new)>(capacity: nat, ops: seq<Op<K, V>>)
    requires capacity >= 1
    requires forall i :: 0 <= i < |ops| ==> !ops[i].Erase?
    ensures KeysOf(Run(capacity, ops)) == First(LatestFirst(Touches(capacity, ops)), capacity)
  {
    if ops != [] {
      var before, op := ops[..|ops| - 1], ops[|ops| - 1];
      KeysAreTheLatest(capacity, before);
      var s, touches := Run(capacity, before), Touches(capacity, before);
      LatestFirstIsDistinct(touches);
      if op.Put? || Lookup(s, op.key).Some? {
        var v := if op.Put? then op.value else Lookup(s, op.key).value;
        KeysOfPut(s, capacity, op.key, v);
        TouchOfFirst(LatestFirst(touches), capacity, op.key);
        assert (touches + [op.key])[..|touches|] == touches;
        assert Step(s, capacity, op) == Step(s, capacity, Put(op.key, v));
      }
    }
  }

  /** Whatever the operations, erasures included, a cached value is the one last put. */
  lemma {:induction false} ValuesAreTheLatest<K(!new), V(!new)>(capacity: nat, ops: seq<Op<K, V>>, e: Entry<K, V>)
    requires capacity >= 1
    requires e in Run(capacity, ops)
    ensures LastPut(ops, e.key) == Some(e.value)
  {
    var before, op := ops[..|ops| - 1], ops[|ops| - 1];
    var s := Run(capacity, before);
    RunHasShape(capacity, before);
    WithoutFacts(s, op.key);
    LookupFacts(s, op.key);
    if !(op.Put? && op.key == e.key) {
      assert e in s;
      ValuesAreTheLatest(capacity, before, e);
    } else {
      RunHasShape(capacity, ops);
      LookupFacts(Run(capacity, ops), op.key);
      assert Run(capacity, ops)[0] == Entry(op.key, op.value);
    }
  }

  // ---------------------------------------------------------------- stack distance

  /** The touches after the last one of k. */
  function Since<K(==)>(touches: seq<K>, k: K): seq<K> {
    if touches == [] || touches[|touches| - 1] == k then []
    else Since(touches[..|touches| - 1], k) + [touches[|touches| - 1]]
  }

  lemma {:induction false} SizeOfDistinct<K(!new)>(s: seq<K>)
    requires Distinct(s)
    ensures |Elements(s)| == |s|
  {
    if s != [] {
      SizeOfDistinct(s[1..]);
      assert s == [s[0]] + s[1..];
      assert Elements(s) == Elements(s[1..]) + {s[0]};
    }
  }

  /** The keys ahead of k in the recency order are those touched since. */
  lemma {:induction false} PlaceInRecency<K(!new)>(touches: seq<K>, k: K) returns (i: nat)
    requires k in touches
    ensures i < |LatestFirst(touches)| && LatestFirst(touches)[i] == k
    ensures Elements(Since(touches, k)) == Elements(LatestFirst(touches)[..i])
  {
    var before, last := touches[..|touches| - 1], touches[|touches| - 1];
    assert touches == before + [last];
    if last == k {
      i := 0;
    } else {
      var j := PlaceInRecency(before, k);
      var recent := LatestFirst(before);
      var ahead, behind := recent[..j], recent[j + 1..];
      assert recent == ahead + ([k] + behind);
      MinusOfAppend(ahead, [k] + behind, last);
      assert ([k] + behind)[1..] == behind;
      MinusFacts(ahead, last);
      i := 1 + |Minus(ahead, last)|;
      assert LatestFirst(touches)[..i] == [last] + Minus(ahead, last);
      assert Elements(Since(touches, k)) == Elements(Since(before, k)) + {last};
    }
  }

  /** Without erasures, a key is found exactly when it was touched before and fewer than
      `capacity` other keys have been touched since. */
  lemma FoundExactlyWhenRecent<K(!new), V(!new)>(capacity: nat, ops: seq<Op<K, V>>, k: K)
    requires capacity >= 1
    requires forall i :: 0 <= i < |ops| ==> !ops[i].Erase?
    ensures var touches := Touches(capacity, ops);
            Lookup(Run(capacity, ops), k).Some? <==> k in touches && |Elements(Since(touches, k))| < capacity
  {
    var s, touches := Run(capacity, ops), Touches(capacity, ops);
    KeysAreTheLatest(capacity, ops);
    LookupByKey(s, k);
    LatestFirstIsDistinct(touches);
    if k in touches {
      var i := PlaceInRecency(touches, k);
      var recency := LatestFirst(touches);
      SizeOfDistinct(recency[..i]);
      if i < capacity {
        assert First(recency, capacity)[i] == k;
      } else {
        assert forall j :: 0 <= j < capacity ==> recency[j] != k;
      }
    }
  }

  // ---------------------------------------------------------------- with erasures

  /** The last touch or erasure of k is a touch. */
  predicate TouchedNotErased<K(==), V>(capacity: nat, ops: seq<Op<K, V>>, k: K) {
    if ops == [] then false
    else
      var before, op := ops[..|ops| - 1], ops[|ops| - 1];
      if op.key == k && op.Erase? then false
      else if op.key == k && (op.Put? || Lookup(Run(capacity, before), k).Some?) then true
      else TouchedNotErased(capacity, before, k)
  }

  predicate SplitsAt<K(==)>(keys: seq<K>, ahead: seq<K>, k: K, behind: seq<K>) {
    keys == ahead + ([k] + behind)
  }

  /** k is listed, and only keys of `since` stand ahead of it. */
  ghost predicate ListedBehind<K(!new)>(keys: seq<K>, k: K, since: set<K>) {
    exists ahead, behind :: SplitsAt(keys, ahead, k, behind) && Elements(ahead) <= since
  }

  lemma MinusSplits<K(!new)>(keys: seq<K>, ahead: seq<K>, k: K, behind: seq<K>, other: K)
    requires SplitsAt(keys, ahead, k, behind) && other != k
    ensures SplitsAt(Minus(keys, other), Minus(ahead, other), k, Minus(behind, other))
  {
    MinusOfAppend(ahead, [k] + behind, other);
    assert ([k] + behind)[1..] == behind;
  }

  lemma ConsSplits<K>(x: K, keys: seq<K>, ahead: seq<K>, k: K, behind: seq<K>)
    requires SplitsAt(keys, ahead, k, behind)
    ensures SplitsAt([x] + keys, [x] + ahead, k, behind)
  {
    assert [x] + (ahead + ([k] + behind)) == ([x] + ahead) + ([k] + behind);
  }

  lemma MinusKeepsListed<K(!new)>(keys: seq<K>, k: K, other: K, since: set<K>)
    requires ListedBehind(keys, k, since) && other != k
    ensures ListedBehind(Minus(keys, other), k, since)
    ensures ListedBehind([other] + Minus(keys, other), k, since + {other})
  {
    var ahead, behind :| SplitsAt(keys, ahead, k, behind) && Elements(ahead) <= since;
    MinusSplits(keys, ahead, k, behind, other);
    MinusFacts(ahead, other);
    ConsSplits(other, Minus(keys, other), Minus(ahead, other), k, Minus(behind, other));
    assert Elements([other] + Minus(ahead, other)) <= since + {other};
  }

  /** A new key in front pushes out k only when `capacity` other keys stand ahead of it. */
  lemma NewKeyKeepsListed<K(!new)>(keys: seq<K>, capacity: nat, k: K, other: K, since: set<K>)
    requires Distinct(keys) && |keys| <= capacity && other !in keys
    requires ListedBehind(keys, k, since) && |since + {other}| < capacity
    ensures ListedBehind(TouchKeys(keys, capacity, other), k, since + {other})
  {
    var ahead, behind :| SplitsAt(keys, ahead, k, behind) && Elements(ahead) <= since;
    var front := [other] + ahead;
    assert forall i :: 0 <= i < |ahead| ==> ahead[i] == keys[i];
    SizeOfDistinct(front);
    SubsetSize(Elements(front), since + {other});
    if |keys| == capacity {
      var kept := behind[..|behind| - 1];
      assert SplitsAt(keys[..|keys| - 1], ahead, k, kept);
      ConsSplits(other, keys[..|keys| - 1], ahead, k, kept);
    } else {
      ConsSplits(other, keys, ahead, k, behind);
    }
  }

  lemma TouchKeepsListed<K(!new)>(keys: seq<K>, capacity: nat, k: K, other: K, since: set<K>)
    requires Distinct(keys) && |keys| <= capacity && other != k
    requires ListedBehind(keys, k, since) && |since + {other}| < capacity
    ensures ListedBehind(TouchKeys(keys, capacity, other), k, since + {other})
  {
    if other in keys {
      MinusKeepsListed(keys, k, other, since);
    } else {
      NewKeyKeepsListed(keys, capacity, k, other, since);
    }
  }

  /** Whatever is erased, a key touched and not erased since, with fewer than `capacity` other
      keys touched since, stands in the list behind none but those. */
  lemma {:induction false} RecentIsListed<K(!new), V(!new)>(capacity: nat, ops: seq<Op<K, V>>, k: K)
    requires capacity >= 1 && TouchedNotErased(capacity, ops, k)
    requires |Elements(Since(Touches(capacity, ops), k))| < capacity
    ensures ListedBehind(KeysOf(Run(capacity, ops)), k, Elements(Since(Touches(capacity, ops), k)))
  {
    var before, op := ops[..|ops| - 1], ops[|ops| - 1];
    var s, touches := Run(capacity, before), Touches(capacity, before);
    RunHasShape(capacity, before);
    if op.key == k {
      if op.Put? || Lookup(s, k).Some? {
        var keys := KeysOf(Run(capacity, ops));
        assert SplitsAt(keys, [], k, keys[1..]) && Elements<K>([]) == {};
      } else {
        RecentIsListed(capacity, before, k);
      }
    } else if op.Put? || (op.Get? && Lookup(s, op.key).Some?) {
      var v := if op.Put? then op.value else Lookup(s, op.key).value;
      assert (touches + [op.key])[..|touches|] == touches;
      assert Elements(Since(touches + [op.key], k)) == Elements(Since(touches, k)) + {op.key};
      SubsetSize(Elements(Since(touches, k)), Elements(Since(touches, k)) + {op.key});
      RecentIsListed(capacity, before, k);
      KeysOfPut(s, capacity, op.key, v);
      TouchKeepsListed(KeysOf(s), capacity, k, op.key, Elements(Since(touches, k)));
      assert Step(s, capacity, op) == Step(s, capacity, Put(op.key, v));
    } else {
      RecentIsListed(capacity, before, k);
      KeysOfWithout(s, op.key);
      MinusKeepsListed(KeysOf(s), k, op.key, Elements(Since(touches, k)));
    }
  }

  /** With erasures the recency criterion still suffices for finding a key. */
  lemma FoundWhenRecent<K(!new), V(!new)>(capacity: nat, ops: seq<Op<K, V>>, k: K)
    requires capacity >= 1 && TouchedNotErased(capacity, ops, k)
    requires |Elements(Since(Touches(capacity, ops), k))| < capacity
    ensures Lookup(Run(capacity, ops), k).Some?
  {
    RecentIsListed(capacity, ops, k);
    var keys := KeysOf(Run(capacity, ops));
    var ahead, behind :|
      SplitsAt(keys, ahead, k, behind) && Elements(ahead) <= Elements(Since(Touches(capacity, ops), k));
    assert keys[|ahead|] == k;
    LookupByKey(Run(capacity, ops), k);
  }

  lemma OneOpMore<K(!new), V(!new)>(capacity: nat, ops: seq<Op<K, V>>, op: Op<K, V>)
    ensures Run(capacity, ops + [op]) == Step(Run(capacity, ops), capacity, op)
    ensures !op.Get? ==> Touches(capacity, ops + [op]) == Touches(capacity, ops) + (if op.Put? then [op.key] else [])
  {
    assert (ops + [op])[..|ops|] == ops;
  }

  const ERASING_OPS: seq<Op<int, int>> := [] + [Put(1, 0)] + [Put(2, 0)] + [Erase(2)] + [Put(3, 0)]

  lemma ErasingRun()
    ensures Run(2, ERASING_OPS) == [Entry(3, 0), Entry(1, 0)]
  {
    var o1: seq<Op<int, int>> := [] + [Put(1, 0)];
    OneOpMore<int, int>(2, [], Put(1, 0));
    OneOpMore(2, o1, Put(2, 0));
    OneOpMore(2, o1 + [Put(2, 0)], Erase(2));
    OneOpMore(2, o1 + [Put(2, 0)] + [Erase(2)], Put(3, 0));
    assert Run(2, o1) == [Entry(1, 0)];
    LookupMissing([Entry(1, 0)], 2);
    LookupMissing([Entry(1, 0)], 3);
    assert Run(2, o1 + [Put(2, 0)]) == [Entry(2, 0), Entry(1, 0)];
    WithoutOne([Entry(2, 0), Entry(1, 0)], 0);
    assert Run(2, o1 + [Put(2, 0)] + [Erase(2)]) == [Entry(1, 0)];
  }

  lemma ErasingTouches()
    ensures Touches(2, ERASING_OPS) == [1, 2, 3]
  {
    var o1: seq<Op<int, int>> := [] + [Put(1, 0)];
    OneOpMore<int, int>(2, [], Put(1, 0));
    OneOpMore(2, o1, Put(2, 0));
    OneOpMore(2, o1 + [Put(2, 0)], Erase(2));
    OneOpMore(2, o1 + [Put(2, 0)] + [Erase(2)], Put(3, 0));
  }

  /** ... but is no longer needed: an erased key makes room, and an older one stays. */
  lemma ErasuresKeepOlderKeys()
    ensures Lookup(Run(2, ERASING_OPS), 1).Some? && |Elements(Since(Touches(2, ERASING_OPS), 1))| == 2
  {
    ErasingRun();
    ErasingTouches();
    assert [1, 2, 3][..2] == [1, 2] && [1, 2][..1] == [1];
    assert Since([1, 2], 1) == [2] && Since([1, 2, 3], 1) == [2, 3];
    assert Elements([2, 3]) == {2, 3};
  }
}
