/** MatrixStat: latency counters with a histogram of 100-microsecond buckets, and percentiles. */
module MatrixStat {

  const BUCKET_USEC: nat := 100
  const TOTAL_BUCKET: nat := 10 * 1000 * 1000 / 100
  const UINT32: nat := 0x1_0000_0000
  const NO_MIN: int := 0xFFFF_FFFF

  /** The bucket of a value: the quotient as an unsigned 32-bit number, the last bucket at most. */
  function Bucket(value: nat): (b: nat)
    ensures b < TOTAL_BUCKET
  {
    var b := value / BUCKET_USEC % UINT32;
    if b >= TOTAL_BUCKET then TOTAL_BUCKET - 1 else b
  }

  // ---------- what was observed ----------

  /** How many of the values fall into the buckets up to and including `b`. */
  function UpTo(seen: seq<nat>, b: int): nat {
    if seen == [] then 0
    else UpTo(seen[..|seen| - 1], b) + if Bucket(seen[|seen| - 1]) <= b then 1 else 0
  }

  function Sum(seen: seq<nat>): nat {
    if seen == [] then 0 else Sum(seen[..|seen| - 1]) + seen[|seen| - 1]
  }

  function Larger(a: int, b: int): int { if a > b then a else b }
  function Smaller(a: int, b: int): int { if a < b then a else b }

  function Max(seen: seq<nat>): int {
    if seen == [] then 0 else Larger(seen[|seen| - 1], Max(seen[..|seen| - 1]))
  }

  function Min(seen: seq<nat>): int {
    if seen == [] then NO_MIN else Smaller(seen[|seen| - 1], Min(seen[..|seen| - 1]))
  }

  /** The sum of the first `n` buckets. */
  function Total(dist: seq<nat>, n: nat): nat
    requires n <= |dist|
  {
    if n == 0 then 0 else Total(dist, n - 1) + dist[n - 1]
  }

  lemma {:induction false} TotalOneMore(dist: seq<nat>, b: nat, n: nat)
    requires b < |dist| && n <= |dist|
    ensures Total(dist[b := dist[b] + 1], n) == Total(dist, n) + if b < n then 1 else 0
  {
    if n > 0 {
      TotalOneMore(dist, b, n - 1);
    }
  }

  lemma {:induction false} TotalOfZeros(n: nat, m: nat)
    requires m <= n
    ensures Total(seq(n, i => 0), m) == 0
  {
    if m > 0 {
      TotalOfZeros(n, m - 1);
    }
  }

  // ---------- percentiles ----------

  /** The least bucket at which the running total reaches `k`, counted from bucket `b`; the number of
      buckets if there is none. */
  function Reaches(dist: seq<nat>, k: nat, b: nat): (n: nat)
    requires b <= |dist|
    ensures b <= n <= |dist|
    decreases |dist| - b
  {
    if b == |dist| || Total(dist, b + 1) >= k then b else Reaches(dist, k, b + 1)
  }

  /** It is the least one. */
  lemma {:induction false} ReachesLeast(dist: seq<nat>, k: nat, b: nat)
    requires b <= |dist|
    ensures var n := Reaches(dist, k, b);
      (n < |dist| ==> Total(dist, n + 1) >= k) && forall j | b < j <= n :: Total(dist, j) < k
    ensures k <= Total(dist, |dist|) && b < |dist| ==> Reaches(dist, k, b) < |dist|
    decreases |dist| - b
  {
    if b < |dist| && Total(dist, b + 1) < k {
      ReachesLeast(dist, k, b + 1);
    }
  }

  lemma ReachesGrows(dist: seq<nat>, j: nat, k: nat)
    requires j <= k
    ensures Reaches(dist, j, 0) <= Reaches(dist, k, 0)
  {
    ReachesLeast(dist, j, 0);
    ReachesLeast(dist, k, 0);
  }

  /** What GetTimeDistribute returns when it asks for `k` of the values. */
  function Percentile(dist: seq<nat>, k: nat): nat {
    if k == 0 || dist == [] then 0
    else
      var n := Reaches(dist, k, 0);
      BUCKET_USEC * if n == |dist| then n - 1 else n
  }

  /** floor of a share of the count. */
  function Share(percent: real, count: nat): nat
    requires percent >= 0.0
  {
    (percent * count as real).Floor
  }

  lemma ShareGrows(p: real, q: real, count: nat)
    requires 0.0 <= p <= q
    ensures Share(p, count) <= Share(q, count)
  {
    var c := count as real;
    assert q * c - p * c == (q - p) * c;
    NotNegative(q - p, c);
  }

  lemma NotNegative(a: real, b: real)
    requires a >= 0.0 && b >= 0.0
    ensures a * b >= 0.0
  {
  }

  lemma ShareAtMost(p: real, count: nat)
    requires 0.0 <= p <= 1.0
    ensures Share(p, count) <= count
  {
    ShareGrows(p, 1.0, count);
    assert 1.0 * count as real == count as real;
  }

  /** A larger share never yields a smaller percentile. */
  lemma PercentileMonotone(dist: seq<nat>, count: nat, p: real, q: real)
    requires 0.0 <= p <= q
    ensures Percentile(dist, Share(p, count)) <= Percentile(dist, Share(q, count))
  {
    ShareGrows(p, q, count);
    hide Share;
    ReachesGrows(dist, Share(p, count), Share(q, count));
  }

  // ---------- counters ----------

  /** The counters of one MatrixStat, as its parent's map holds them. */
  datatype Stat = Stat(count: nat, value: int, max: int, min: int, distribution: seq<nat>)

  const FRESH := Stat(0, 0, 0, NO_MIN, [])

  /** TimeDistribute(value) on the counters. */
  function Observe(s: Stat, value: nat): Stat {
    var dist := if |s.distribution| == TOTAL_BUCKET then s.distribution else Resized(s.distribution, TOTAL_BUCKET);
    Stat(s.count + 1, s.value + value, Larger(value, s.max), Smaller(value, s.min),
         dist[Bucket(value) := dist[Bucket(value)] + 1])
  }

  /** vector::resize. */
  function Resized(v: seq<nat>, n: nat): (r: seq<nat>)
    ensures |r| == n
  {
    seq(n, i requires 0 <= i < n => if i < |v| then v[i] else 0)
  }

  /** The counters after the values `seen`, and nothing else. */
  predicate Counts(s: Stat, seen: seq<nat>) {
    s.count == |seen| && s.value == Sum(seen) && s.max == Max(seen) && s.min == Min(seen)
    && (if seen == [] then s.distribution == [] else |s.distribution| == TOTAL_BUCKET)
    && forall b | 0 <= b < |s.distribution| :: Total(s.distribution, b + 1) == UpTo(seen, b)
  }

  lemma {:induction false} UpToAll(seen: seq<nat>)
    ensures UpTo(seen, TOTAL_BUCKET - 1) == |seen|
  {
    if seen != [] {
      UpToAll(seen[..|seen| - 1]);
    }
  }

  /** One more value keeps the counters right. */
  lemma ObserveCounts(s: Stat, seen: seq<nat>, value: nat)
    requires Counts(s, seen)
    ensures Counts(Observe(s, value), seen + [value])
  {
    var s' := Observe(s, value);
    var dist := if |s.distribution| == TOTAL_BUCKET then s.distribution else Resized(s.distribution, TOTAL_BUCKET);
    assert (seen + [value])[..|seen|] == seen;
    forall b | 0 <= b < TOTAL_BUCKET ensures Total(s'.distribution, b + 1) == UpTo(seen + [value], b) {
      TotalOneMore(dist, Bucket(value), b + 1);
      if seen == [] {
        assert dist == seq(TOTAL_BUCKET, i => 0);
        TotalOfZeros(TOTAL_BUCKET, b + 1);
      }
    }
  }

  /** The buckets add up to the count. */
  lemma BucketsSumToCount(s: Stat, seen: seq<nat>)
    requires Counts(s, seen)
    ensures Total(s.distribution, |s.distribution|) == s.count
  {
    UpToAll(seen);
  }

  /** What a percentile means: at least `k` of the values lie in the buckets up to the one it names, and
      fewer than `k` in those before it. */
  lemma PercentileMeaning(s: Stat, seen: seq<nat>, percent: real)
    requires Counts(s, seen) && 0.0 <= percent <= 1.0 && Share(percent, s.count) > 0
    ensures var k := Share(percent, s.count);
      var b := Percentile(s.distribution, k) / BUCKET_USEC;
      Percentile(s.distribution, k) == BUCKET_USEC * b && b < TOTAL_BUCKET
      && UpTo(seen, b) >= k && UpTo(seen, b - 1) < k
  {
    var k := Share(percent, s.count);
    ShareAtMost(percent, s.count);
    BucketsSumToCount(s, seen);
    ReachesLeast(s.distribution, k, 0);
    NoneBelow(seen);
    hide Share, UpTo, Sum, Max, Min, Total, Reaches;
    var n := Reaches(s.distribution, k, 0);
    assert n < |s.distribution|;
    assert Total(s.distribution, n + 1) == UpTo(seen, n);
    if n > 0 {
      assert Total(s.distribution, n - 1 + 1) == UpTo(seen, n - 1);
      assert Total(s.distribution, n) < k;
    }
  }

  /** How many of the values are less than `v`. */
  function Below(seen: seq<nat>, v: int): nat {
    if seen == [] then 0 else Below(seen[..|seen| - 1], v) + if seen[|seen| - 1] < v then 1 else 0
  }

  /** No value is so large that its quotient does not fit 32 bits. */
  predicate Moderate(seen: seq<nat>) { forall i | 0 <= i < |seen| :: seen[i] < 100 * 0x1_0000_0000 }

  lemma BucketOf(v: nat, b: int)
    requires v < 100 * 0x1_0000_0000 && -1 <= b < 99999
    ensures Bucket(v) <= b <==> v < 100 * b + 100
  {
    Whole(v / 100);
    assert v / BUCKET_USEC % UINT32 == v / 100;
    assert v == v / 100 * 100 + v % 100;
  }

  lemma Whole(q: nat)
    requires q < 0x1_0000_0000
    ensures q % 0x1_0000_0000 == q
  {
  }

  lemma {:induction false} BucketsAreRanges(seen: seq<nat>, b: int)
    requires Moderate(seen) && -1 <= b < 99999
    ensures UpTo(seen, b) == Below(seen, 100 * b + 100)
  {
    if seen != [] {
      BucketOf(seen[|seen| - 1], b);
      BucketsAreRanges(seen[..|seen| - 1], b);
    }
  }

  /** In terms of the values themselves: the percentile is a multiple of 100 microseconds up to 10 seconds.
      Fewer than the asked number of values are less than it, and at least as many are less than it and
      another 100, unless it is the last bucket, which takes all that is longer. */
  lemma PercentileOfValues(s: Stat, seen: seq<nat>, percent: real)
    requires Counts(s, seen) && Moderate(seen) && 0.0 <= percent <= 1.0 && Share(percent, s.count) > 0
    ensures var k, v := Share(percent, s.count), Percentile(s.distribution, Share(percent, s.count));
      v % 100 == 0 && v < 10_000_000 && Below(seen, v) < k && (v < 9_999_900 ==> Below(seen, v + 100) >= k)
  {
    PercentileMeaning(s, seen, percent);
    hide Counts, Share, Percentile, UpTo, Below, Moderate;
    var v := Percentile(s.distribution, Share(percent, s.count));
    var b: int := v / 100;
    assert v == 100 * b && b < 100000;
    BucketsAreRanges(seen, b - 1);
    if b < 99999 {
      BucketsAreRanges(seen, b);
    }
  }

  /** The extremes are bounds of the values, and among them, but for their limits. */
  lemma {:induction false} Extremes(seen: seq<nat>)
    ensures forall i | 0 <= i < |seen| :: Min(seen) <= seen[i] <= Max(seen)
    ensures seen != [] ==> Max(seen) in seen && (Min(seen) in seen || Min(seen) == 0xFFFF_FFFF)
    ensures 0 <= Max(seen) && 0 <= Min(seen) <= 0xFFFF_FFFF
  {
    if seen != [] {
      var init, last := seen[..|seen| - 1], seen[|seen| - 1];
      Extremes(init);
      assert seen == init + [last];
    }
  }

  lemma {:induction false} NoneBelow(seen: seq<nat>)
    ensures UpTo(seen, -1) == 0
  {
    if seen != [] {
      NoneBelow(seen[..|seen| - 1]);
    }
  }

  // ---------- results ----------

  /** One call of TimeDistribute(result, value). */
  datatype Call = Call(result: string, value: nat)

  function ValuesOf(calls: seq<Call>): seq<nat> {
    if calls == [] then [] else ValuesOf(calls[..|calls| - 1]) + [calls[|calls| - 1].value]
  }

  function ValuesFor(calls: seq<Call>, result: string): seq<nat> {
    if calls == [] then []
    else
      var last := calls[|calls| - 1];
      ValuesFor(calls[..|calls| - 1], result) + if last.result == result then [last.value] else []
  }

  /** The parent counts every call, the child of a result those with this result. */
  predicate AllCount(parent: Stat, child: map<string, Stat>, calls: seq<Call>) {
    Counts(parent, ValuesOf(calls)) && Known(child, calls) && forall r | r in child :: ChildCounts(child, calls, r)
  }

  /** Every result has a child. */
  predicate Known(child: map<string, Stat>, calls: seq<Call>) {
    forall i | 0 <= i < |calls| && calls[i].result != "" :: calls[i].result in child
  }

  predicate ChildCounts(child: map<string, Stat>, calls: seq<Call>, r: string)
    requires r in child
  {
    r != "" && Counts(child[r], ValuesFor(calls, r))
  }

  /** The children after one more call. */
  function ChildrenAfter(child: map<string, Stat>, c: Call): map<string, Stat> {
    if c.result == "" then child
    else child[c.result := Observe(if c.result in child then child[c.result] else FRESH, c.value)]
  }

  function SumOfCounts(child: map<string, Stat>, results: seq<string>): nat
    requires forall i | 0 <= i < |results| :: results[i] in child
  {
    if results == [] then 0
    else SumOfCounts(child, results[..|results| - 1]) + child[results[|results| - 1]].count
  }

  /** How many of the calls have their result among `results`. */
  function CallsWith(calls: seq<Call>, results: seq<string>): nat {
    if calls == [] then 0
    else CallsWith(calls[..|calls| - 1], results) + if calls[|calls| - 1].result in results then 1 else 0
  }

  lemma {:induction false} CallsWithOneMore(calls: seq<Call>, results: seq<string>, r: string)
    requires r !in results
    ensures CallsWith(calls, results + [r]) == CallsWith(calls, results) + |ValuesFor(calls, r)|
  {
    if calls != [] {
      CallsWithOneMore(calls[..|calls| - 1], results, r);
      var last := calls[|calls| - 1];
      assert last.result in results + [r] <==> last.result in results || last.result == r;
    }
  }

  lemma {:induction false} CallsWithNone(calls: seq<Call>)
    ensures CallsWith(calls, []) == 0
  {
    if calls != [] {
      CallsWithNone(calls[..|calls| - 1]);
    }
  }

  lemma {:induction false} ChildrenCount(parent: Stat, child: map<string, Stat>, calls: seq<Call>, results: seq<string>)
    requires AllCount(parent, child, calls)
    requires forall i | 0 <= i < |results| :: results[i] in child
    requires forall i, j | 0 <= i < j < |results| :: results[i] != results[j]
    ensures SumOfCounts(child, results) == CallsWith(calls, results)
    decreases |results|
  {
    hide Counts;
    if results == [] {
      CallsWithNone(calls);
    } else {
      var n := |results| - 1;
      ChildrenCount(parent, child, calls, results[..n]);
      CallsWithOneMore(calls, results[..n], results[n]);
      assert results == results[..n] + [results[n]];
      CountOf(child[results[n]], ValuesFor(calls, results[n]));
    }
  }

  lemma CountOf(s: Stat, seen: seq<nat>)
    requires Counts(s, seen)
    ensures s.count == |seen|
  {
  }

  lemma {:induction false} CallsWithAll(calls: seq<Call>, results: seq<string>)
    requires forall i | 0 <= i < |calls| :: calls[i].result in results
    ensures CallsWith(calls, results) == |ValuesOf(calls)|
  {
    if calls != [] {
      CallsWithAll(calls[..|calls| - 1], results);
    }
  }

  /** When every call has a result, the counts of the children, each taken once, add up to the count of
      the parent. */
  lemma ChildrenSumToParent(parent: Stat, child: map<string, Stat>, calls: seq<Call>, results: seq<string>)
    requires AllCount(parent, child, calls) && forall i | 0 <= i < |calls| :: calls[i].result != ""
    requires (forall r :: r in results <==> r in child) && forall i, j | 0 <= i < j < |results| :: results[i] != results[j]
    ensures SumOfCounts(child, results) == parent.count
  {
    ChildrenCount(parent, child, calls, results);
    CallsWithAll(calls, results);
  }

  // ---------- the class ----------

  class MatrixStat {
    var count: nat
    var value: int
    var max: int
    var min: int
    var distribution: seq<nat>
    var child: map<string, Stat>
    ghost var calls: seq<Call>

    ghost function Own(): Stat
      reads this
    {
      Stat(count, value, max, min, distribution)
    }

    ghost predicate Valid()
      reads this
    {
      AllCount(Own(), child, calls)
    }

    constructor ()
      ensures Valid() && calls == [] && child == map[] && Own() == FRESH
    {
      count, value, max, min := 0, 0, 0, NO_MIN;
      distribution, child, calls := [], map[], [];
    }

    method MaxMin(v: int)
      modifies this`max, this`min
      ensures max == Larger(v, old(max)) && min == Smaller(v, old(min))
    {
      max := if v > max then v else max;
      min := if v < min then v else min;
    }

    /** TimeDistribute(value). */
    method TimeDistributeValue(v: nat)
      modifies this`count, this`value, this`max, this`min, this`distribution
      ensures Own() == Observe(old(Own()), v)
    {
      if |distribution| != TOTAL_BUCKET {
        distribution := Resized(distribution, TOTAL_BUCKET);
      }
      MaxMin(v);
      count := count + 1;
      value := value + v;
      var bucket := v / BUCKET_USEC % UINT32;
      if bucket >= TOTAL_BUCKET {
        bucket := TOTAL_BUCKET - 1;
      }
      distribution := distribution[bucket := distribution[bucket] + 1];
    }

    /** TimeDistribute(result, value). */
    method TimeDistribute(result: string, v: nat)
      requires Valid()
      modifies this
      ensures Valid() && calls == old(calls) + [Call(result, v)]
    {
      hide Counts, Observe, AllCount;
      Next(Own(), child, calls, Call(result, v));
      TimeDistributeValue(v);
      calls := calls + [Call(result, v)];
      if |result| == 0 {
        return;
      }
      ghost var before := child;
      if result !in child {
        child := child[result := FRESH];
      }
      child := child[result := Observe(child[result], v)];
      assert child == ChildrenAfter(before, Call(result, v));
    }

    /** GetTimeDistribute. */
    method GetTimeDistribute(percent: real) returns (t: nat)
      requires percent >= 0.0
      ensures t == Percentile(distribution, Share(percent, count))
    {
      var wanted := Share(percent, count);
      var sum, bucket := 0, 0;
      while bucket != |distribution| && sum < wanted
        invariant bucket <= |distribution| && sum == Total(distribution, bucket)
        invariant bucket > 0 ==> Total(distribution, bucket - 1) < wanted
        invariant wanted > 0 && distribution != [] ==>
          Reaches(distribution, wanted, 0) == Reaches(distribution, wanted, if bucket == 0 then 0 else bucket - 1)
        decreases |distribution| - bucket
      {
        sum := sum + distribution[bucket];
        bucket := bucket + 1;
      }
      bucket := if bucket != 0 then bucket - 1 else 0;
      t := bucket * BUCKET_USEC;
    }
  }

  lemma NextChild(child: map<string, Stat>, calls: seq<Call>, c: Call, r: string)
    requires Known(child, calls) && (r in child ==> ChildCounts(child, calls, r)) && r in ChildrenAfter(child, c)
    ensures ChildCounts(ChildrenAfter(child, c), calls + [c], r)
  {
    hide Counts, Observe;
    assert (calls + [c])[..|calls|] == calls;
    if r == c.result && r !in child {
      NoValues(calls, r);
      FreshCounts();
      ObserveCounts(FRESH, [], c.value);
    } else if r == c.result {
      ObserveCounts(child[r], ValuesFor(calls, r), c.value);
    } else {
      assert ValuesFor(calls, r) + [] == ValuesFor(calls, r);
    }
  }

  /** The state after one more call. */
  lemma Next(parent: Stat, child: map<string, Stat>, calls: seq<Call>, c: Call)
    requires AllCount(parent, child, calls)
    ensures AllCount(Observe(parent, c.value), ChildrenAfter(child, c), calls + [c])
  {
    hide Counts, Observe, ChildCounts, ValuesFor;
    var all := calls + [c];
    assert all[..|calls|] == calls;
    ObserveCounts(parent, ValuesOf(calls), c.value);
    forall r | r in ChildrenAfter(child, c) ensures ChildCounts(ChildrenAfter(child, c), all, r) {
      NextChild(child, calls, c, r);
    }
  }

  lemma FreshCounts()
    ensures Counts(FRESH, [])
  {
  }

  lemma {:induction false} NoValues(calls: seq<Call>, r: string)
    requires forall i | 0 <= i < |calls| :: calls[i].result != r
    ensures ValuesFor(calls, r) == []
  {
    if calls != [] {
      NoValues(calls[..|calls| - 1], r);
    }
  }
}
