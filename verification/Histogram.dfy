/**
 The soak test's latency histogram: reading the cumulative buckets a daemon
 reports, and the 95th percentile of the samples added between two reports.
 */
module Histogram {
  import opened Common

  // ----- Reading a report -----

  /** A JSON value as far as a metric looks at it: a finite number or something else. */
  datatype Json = Number(n: real) | Other

  datatype Problem =
    | MissingHistogram
    | MissingNumber
    | NotNonNegativeInteger
    | NotPositive
    | MissingBuckets
    | InvalidBucket
    | InvalidIndex(index: nat)
    | CountMismatch
    | GeometryChanged
    | Regressed(index: nat)
    | MetricRegressed

  const MAX_SAFE_INTEGER: nat := 0x1F_FFFF_FFFF_FFFF

  function RequiredNatural(v: Json): Result<nat, Problem> {
    if v.Other? then Err(MissingNumber)
    else if v.n == v.n.Floor as real && 0.0 <= v.n <= MAX_SAFE_INTEGER as real then Ok(v.n.Floor)
    else Err(NotNonNegativeInteger)
  }

  function RequiredPositive(v: Json): (r: Result<nat, Problem>)
    ensures r.Ok? ==> r.value > 0
  {
    match RequiredNatural(v)
    case Err(p) => Err(p)
    case Ok(n) => if n == 0 then Err(NotPositive) else Ok(n)
  }

  /** Accepted are the whole numbers up to the largest safe one, and nothing else. */
  lemma NaturalIs(v: Json, n: nat)
    ensures RequiredNatural(v) == Ok(n) <==> n <= MAX_SAFE_INTEGER && v == Number(n as real)
    ensures RequiredPositive(v) == Ok(n) <==> 0 < n <= MAX_SAFE_INTEGER && v == Number(n as real)
    ensures v.Other? <==> RequiredNatural(v) == Err(MissingNumber)
  {
  }

  datatype RawBucket = NotAnObject | RawBucket(index: Json, count: Json)

  datatype RawHistogram = RawHistogram(width: Json, overflow: Json, token: Json, buckets: Option<seq<RawBucket>>)

  /** The `input_stage` object of a status, when there is one. */
  datatype Stage = Stage(histogram: Option<RawHistogram>, sampleCount: Json)

  type Counts = map<nat, nat>

  datatype Report = Report(width: nat, overflow: nat, token: nat, counts: Counts) {
    predicate Valid() { width > 0 && overflow > 0 && forall k :: k in counts ==> k <= overflow }
  }

  function Count(counts: Counts, k: nat): nat { if k in counts then counts[k] else 0 }

  /** The samples in the buckets below `n`. */
  function Total(counts: Counts, n: nat): nat {
    if n == 0 then 0 else Total(counts, n - 1) + Count(counts, n - 1)
  }

  predicate GoodBucket(b: RawBucket, overflow: nat) {
    && b.RawBucket? && RequiredNatural(b.index).Ok? && RequiredNatural(b.count).Ok?
    && RequiredNatural(b.index).value <= overflow
  }

  function IndexOf(b: RawBucket): nat
    requires b.RawBucket? && RequiredNatural(b.index).Ok?
  {
    RequiredNatural(b.index).value
  }

  function CountOf(b: RawBucket): nat
    requires b.RawBucket? && RequiredNatural(b.count).Ok?
  {
    RequiredNatural(b.count).value
  }

  /** The first `n` raw buckets are good, have distinct indexes, and are exactly the entries of the map. */
  ghost predicate Entries(raw: seq<RawBucket>, n: nat, overflow: nat, counts: Counts)
    requires n <= |raw|
  {
    && (forall i :: 0 <= i < n ==> GoodBucket(raw[i], overflow))
    && (forall i :: 0 <= i < n ==> IndexOf(raw[i]) in counts && counts[IndexOf(raw[i])] == CountOf(raw[i]))
    && (forall i, j :: 0 <= i < j < n ==> IndexOf(raw[i]) != IndexOf(raw[j]))
    && (forall k :: k in counts ==> exists i :: 0 <= i < n && IndexOf(raw[i]) == k)
  }

  /** The stage is well formed and says exactly this. */
  ghost predicate Represents(stage: Stage, r: Report) {
    && stage.histogram.Some?
    && var h := stage.histogram.value;
    && RequiredPositive(h.width) == Ok(r.width)
    && RequiredPositive(h.overflow) == Ok(r.overflow)
    && RequiredNatural(h.token) == Ok(r.token)
    && h.buckets.Some?
    && Entries(h.buckets.value, |h.buckets.value|, r.overflow, r.counts)
    && RequiredNatural(stage.sampleCount) == Ok(Total(r.counts, r.overflow + 1))
  }

  lemma {:induction false} TotalGrows(counts: Counts, index: nat, count: nat, n: nat)
    requires index !in counts
    ensures Total(counts[index := count], n) == Total(counts, n) + if index < n then count else 0
  {
    if n > 0 { TotalGrows(counts, index, count, n - 1); }
  }

  lemma {:induction false} NoneIsZero(n: nat)
    ensures Total(map[], n) == 0
  {
    if n > 0 { NoneIsZero(n - 1); }
  }

  /** Filling the bucket map; the running total stands for the reducing sum over its values. */
  method ReadBuckets(raw: seq<RawBucket>, overflow: nat) returns (r: Result<(Counts, nat), Problem>)
    ensures r.Ok? ==> Entries(raw, |raw|, overflow, r.value.0) && r.value.1 == Total(r.value.0, overflow + 1)
    ensures r.Err? ==> forall counts :: !Entries(raw, |raw|, overflow, counts)
  {
    var counts: Counts := map[];
    var total := 0;
    NoneIsZero(overflow + 1);
    for n := 0 to |raw|
      invariant Entries(raw, n, overflow, counts)
      invariant total == Total(counts, overflow + 1)
    {
      var b := raw[n];
      if b.NotAnObject? {
        assert !GoodBucket(raw[n], overflow);
        return Err(InvalidBucket);
      }
      var index := RequiredNatural(b.index);
      var count := RequiredNatural(b.count);
      if index.Err? || count.Err? {
        assert !GoodBucket(raw[n], overflow);
        return Err(if index.Err? then index.error else count.error);
      }
      if index.value > overflow || index.value in counts {
        if index.value > overflow {
          assert !GoodBucket(raw[n], overflow);
        } else {
          TwiceIsInvalid(raw, n, overflow, counts);
        }
        return Err(InvalidIndex(index.value));
      }
      TotalGrows(counts, index.value, count.value, overflow + 1);
      OneMoreEntry(raw, n, overflow, counts);
      counts := counts[index.value := count.value];
      total := total + count.value;
    }
    return Ok((counts, total));
  }

  lemma OneMoreEntry(raw: seq<RawBucket>, n: nat, overflow: nat, counts: Counts)
    requires n < |raw| && Entries(raw, n, overflow, counts) && GoodBucket(raw[n], overflow)
    requires IndexOf(raw[n]) !in counts
    ensures Entries(raw, n + 1, overflow, counts[IndexOf(raw[n]) := CountOf(raw[n])])
  {
  }

  lemma TwiceIsInvalid(raw: seq<RawBucket>, n: nat, overflow: nat, counts: Counts)
    requires n < |raw| && Entries(raw, n, overflow, counts) && GoodBucket(raw[n], overflow)
    requires IndexOf(raw[n]) in counts
    ensures forall other :: !Entries(raw, |raw|, overflow, other)
  {
    var i :| 0 <= i < n && IndexOf(raw[i]) == IndexOf(raw[n]);
  }

  /** A raw list has at most one reading. */
  lemma EntriesAreUnique(raw: seq<RawBucket>, overflow: nat, a: Counts, b: Counts)
    requires Entries(raw, |raw|, overflow, a) && Entries(raw, |raw|, overflow, b)
    ensures a == b
  {
    forall k ensures k in a <==> k in b {
    }
    forall k | k in a ensures a[k] == b[k] {
      var i :| 0 <= i < |raw| && IndexOf(raw[i]) == k;
    }
  }

  /** `cumulativeInputHistogram`: succeeds on exactly the well-formed stages, with what they say. */
  method CumulativeInputHistogram(status: Option<Stage>) returns (r: Result<Report, Problem>)
    ensures r.Ok? ==> status.Some? && Represents(status.value, r.value) && r.value.Valid()
    ensures r.Err? ==> status.None? || forall report :: !Represents(status.value, report)
  {
    if status.None? || status.value.histogram.None? {
      return Err(MissingHistogram);
    }
    var h := status.value.histogram.value;
    var width := RequiredPositive(h.width);
    if width.Err? { return Err(width.error); }
    var overflow := RequiredPositive(h.overflow);
    if overflow.Err? { return Err(overflow.error); }
    var token := RequiredNatural(h.token);
    if token.Err? { return Err(token.error); }
    if h.buckets.None? { return Err(MissingBuckets); }
    var buckets := ReadBuckets(h.buckets.value, overflow.value);
    if buckets.Err? { return Err(buckets.error); }
    var reported := RequiredNatural(status.value.sampleCount);
    if reported.Err? { return Err(reported.error); }
    if buckets.value.1 != reported.value {
      forall report ensures !Represents(status.value, report) {
        if Represents(status.value, report) {
          EntriesAreUnique(h.buckets.value, overflow.value, report.counts, buckets.value.0);
          assert false;
        }
      }
      return Err(CountMismatch);
    }
    r := Ok(Report(width.value, overflow.value, token.value, buckets.value.0));
    assert forall k :: k in r.value.counts ==> k <= overflow.value;
  }

  // ----- Samples -----

  function Growth(before: Counts, after: Counts, k: nat): int { Count(after, k) - Count(before, k) }

  predicate Sorted(s: seq<nat>) { forall i, j :: 0 <= i < j < |s| ==> s[i] <= s[j] }

  /** The samples added between two reports, as bucket indexes in order. */
  ghost predicate Samples(s: seq<nat>, before: Counts, after: Counts) {
    Sorted(s) && forall k: nat :: multiset(s)[k] == Growth(before, after, k)
  }

  /** The nearest-rank position of the 95th percentile: the smallest rank covering 95 % of `n`. */
  function Rank(n: nat): (r: nat)
    ensures 100 * r >= 95 * n && (r > 0 ==> 100 * (r - 1) < 95 * n)
    ensures n > 0 ==> 1 <= r <= n
  {
    (95 * n + 99) / 100
  }

  datatype Latency = Infinite | Ms(ms: real)

  /** The p95 by its definition. */
  function Percentile(s: seq<nat>, overflow: nat, width: nat): Latency {
    if s == [] then Ms(0.0) else LatencyOf(s[Rank(|s|) - 1], overflow, width)
  }

  /** The latency a bucket stands for: its upper bound, unless it is the overflow bucket. */
  function LatencyOf(k: nat, overflow: nat, width: nat): Latency {
    if k >= overflow then Infinite else Ms((k * width) as real / 1000.0)
  }

  /** The bucket in which the daemon records a sample of `us` microseconds: the last one is open above. */
  function BucketOf(us: nat, overflow: nat, width: nat): nat
    requires width > 0
  {
    var upper := if us == 0 then 0 else (us - 1) / width + 1;
    if upper < overflow then upper else overflow
  }

  /** What is reported of a recorded sample is at least its latency and less than one bucket above it. */
  lemma LatencyOfSample(us: nat, overflow: nat, width: nat)
    requires width > 0
    ensures
      var latency := LatencyOf(BucketOf(us, overflow, width), overflow, width);
      if overflow > 0 && us <= (overflow - 1) * width then
        && latency.Ms? && us as real <= latency.ms * 1000.0 < us as real + width as real
      else latency == Infinite
  {
    var k := if us == 0 then 0 else (us - 1) / width + 1;
    BucketBounds(us, width, k);
    if overflow > 0 { BucketBelow(us, overflow - 1, width, k); }
  }

  lemma BucketBounds(us: nat, width: nat, k: nat)
    requires width > 0 && k == if us == 0 then 0 else (us - 1) / width + 1
    ensures us <= k * width < us + width
  {
    if us > 0 {
      var q, r := (us - 1) / width, (us - 1) % width;
      assert us - 1 == q * width + r;
      assert k * width == q * width + width;
    }
  }

  lemma BucketBelow(us: nat, last: nat, width: nat, k: nat)
    requires us <= k * width < us + width
    ensures k <= last <==> us <= last * width
  {
    if k <= last {
      assert k * width <= last * width;
    } else {
      assert (last + 1) * width <= k * width;
    }
  }

  lemma NoMore(k: nat, n: nat, width: nat)
    requires width > 0 && k * width < n * width + width
    ensures k <= n
  {
    if k > n { ProductSplit(n, 1, width); ProductSplit(n + 1, k - n - 1, width); }
  }

  lemma ProductSplit(a: nat, b: nat, width: nat)
    ensures (a + b) * width == a * width + b * width && b * width >= 0
  {
  }

  lemma BucketsRise(a: nat, b: nat, overflow: nat, width: nat)
    requires width > 0 && a <= b
    ensures BucketOf(a, overflow, width) <= BucketOf(b, overflow, width)
  {
    var k := if a == 0 then 0 else (a - 1) / width + 1;
    var n := if b == 0 then 0 else (b - 1) / width + 1;
    BucketBounds(a, width, k);
    BucketBounds(b, width, n);
    NoMore(k, n, width);
  }

  /**
   The p95 of recorded samples is that of the samples themselves, rounded up by less than one
   bucket, and infinite exactly when that sample fell into the open bucket.
   */
  lemma P95OfRecorded(us: seq<nat>, s: seq<nat>, overflow: nat, width: nat)
    requires width > 0 && us != [] && Sorted(us)
    requires |s| == |us| && forall i :: 0 <= i < |s| ==> s[i] == BucketOf(us[i], overflow, width)
    ensures Sorted(s)
    ensures
      var sample, latency := us[Rank(|us|) - 1], Percentile(s, overflow, width);
      if overflow > 0 && sample <= (overflow - 1) * width then
        && latency.Ms? && sample as real <= latency.ms * 1000.0 < sample as real + width as real
      else latency == Infinite
  {
    forall i, j | 0 <= i < j < |s| ensures s[i] <= s[j] { BucketsRise(us[i], us[j], overflow, width); }
    LatencyOfSample(us[Rank(|us|) - 1], overflow, width);
  }

  // ----- Sorted sequences -----

  lemma SameHead(a: seq<nat>, b: seq<nat>)
    requires Sorted(a) && Sorted(b) && multiset(a) == multiset(b) && a != []
    ensures b != [] && a[0] == b[0]
  {
    assert a[0] in multiset(b);
    var i :| 0 <= i < |b| && b[i] == a[0];
    assert b[0] in multiset(a);
    var j :| 0 <= j < |a| && a[j] == b[0];
  }

  lemma SameTail(a: seq<nat>, b: seq<nat>)
    requires a != [] && b != [] && a[0] == b[0] && multiset(a) == multiset(b)
    ensures multiset(a[1..]) == multiset(b[1..])
  {
    assert a == [a[0]] + a[1..] && b == [b[0]] + b[1..];
    assert multiset(a[1..]) == multiset(a) - multiset{a[0]};
    assert multiset(b[1..]) == multiset(b) - multiset{b[0]};
  }

  lemma {:induction false} SortedAreUnique(a: seq<nat>, b: seq<nat>)
    requires Sorted(a) && Sorted(b) && multiset(a) == multiset(b)
    ensures a == b
  {
    if a == [] {
      assert |multiset(a)| == |a| && |multiset(b)| == |b|;
    } else {
      SameHead(a, b);
      SameTail(a, b);
      SortedAreUnique(a[1..], b[1..]);
      assert a == [a[0]] + a[1..] && b == [b[0]] + b[1..];
    }
  }

  // ----- Bucket lists -----

  datatype Bucket = Bucket(index: nat, count: nat)

  predicate Ascending(d: seq<Bucket>) { forall i, j :: 0 <= i < j < |d| ==> d[i].index < d[j].index }

  function Repeated(k: nat, n: nat): (r: seq<nat>)
    ensures |r| == n && (forall i :: 0 <= i < n ==> r[i] == k) && multiset(r)[k] == n
    ensures forall x: nat :: x != k ==> multiset(r)[x] == 0
  {
    if n == 0 then [] else Repeated(k, n - 1) + [k]
  }

  /** Every bucket's index as often as it was counted. */
  function Expand(d: seq<Bucket>): seq<nat> {
    if d == [] then [] else Expand(d[..|d| - 1]) + Repeated(d[|d| - 1].index, d[|d| - 1].count)
  }

  function ListCount(d: seq<Bucket>, k: nat): nat {
    if d == [] then 0
    else ListCount(d[..|d| - 1], k) + if d[|d| - 1].index == k then d[|d| - 1].count else 0
  }

  lemma {:induction false} ExpandCounts(d: seq<Bucket>, k: nat)
    ensures multiset(Expand(d))[k] == ListCount(d, k)
  {
    if d != [] { ExpandCounts(d[..|d| - 1], k); }
  }

  lemma {:induction false} ExpandBelow(d: seq<Bucket>, bound: nat)
    requires forall i :: 0 <= i < |d| ==> d[i].index <= bound
    ensures forall p :: 0 <= p < |Expand(d)| ==> Expand(d)[p] <= bound
  {
    if d != [] { ExpandBelow(d[..|d| - 1], bound); }
  }

  lemma {:induction false} ExpandSorted(d: seq<Bucket>)
    requires Ascending(d)
    ensures Sorted(Expand(d))
  {
    if d != [] {
      var init, last := d[..|d| - 1], d[|d| - 1];
      ExpandSorted(init);
      ExpandBelow(init, last.index);
    }
  }

  /** Expanding the first buckets gives the first samples. */
  lemma {:induction false} ExpandPrefix(d: seq<Bucket>, k: nat)
    requires k <= |d|
    ensures Expand(d[..k]) <= Expand(d)
  {
    if k < |d| {
      var init := d[..|d| - 1];
      assert init[..k] == d[..k];
      ExpandPrefix(init, k);
    } else {
      assert d[..k] == d;
    }
  }

  lemma ExpandStep(d: seq<Bucket>, k: nat)
    requires k < |d|
    ensures Expand(d[..k + 1]) == Expand(d[..k]) + Repeated(d[k].index, d[k].count)
  {
    assert d[..k + 1][..k] == d[..k];
  }

  lemma PrefixAt(a: seq<nat>, b: seq<nat>, whole: seq<nat>, p: nat)
    requires a + b <= whole && |a| <= p < |a| + |b|
    ensures p < |whole| && whole[p] == b[p - |a|]
  {
    assert whole[p] == (a + b)[p];
  }

  /** The samples between two running totals are all of one bucket. */
  lemma ExpandAt(d: seq<Bucket>, k: nat, p: nat)
    requires k < |d| && |Expand(d[..k])| <= p < |Expand(d[..k + 1])|
    ensures p < |Expand(d)| && Expand(d)[p] == d[k].index
  {
    ExpandPrefix(d, k + 1);
    ExpandStep(d, k);
    PrefixAt(Expand(d[..k]), Repeated(d[k].index, d[k].count), Expand(d), p);
  }

  // ----- The difference -----

  method SortedIndexes(keys: set<nat>) returns (r: seq<nat>)
    ensures forall i, j :: 0 <= i < j < |r| ==> r[i] < r[j]
    ensures forall k :: k in r <==> k in keys
  {
    r := [];
    var rest := keys;
    while rest != {}
      invariant rest <= keys && forall k :: k in r <==> k in keys && k !in rest
      invariant forall i, j :: 0 <= i < j < |r| ==> r[i] < r[j]
      invariant forall i, k :: 0 <= i < |r| && k in rest ==> r[i] < k
      decreases rest
    {
      ghost var least := Least(rest);
      var k :| k in rest && forall x :: x in rest ==> k <= x;
      r := r + [k];
      rest := rest - {k};
    }
  }

  lemma {:induction false} Least(s: set<nat>) returns (k: nat)
    requires s != {}
    ensures k in s && forall x :: x in s ==> k <= x
  {
    var x :| x in s;
    k := x;
    if s != {x} {
      var other := Least(s - {x});
      if other < k { k := other; }
      forall y | y in s ensures k <= y {
        assert y == x || y in s - {x};
      }
    }
  }

  /** The list has exactly the growth of every bucket, in ascending order. */
  ghost predicate IsDifference(d: seq<Bucket>, before: Counts, after: Counts) {
    Ascending(d) && forall k: nat :: ListCount(d, k) == Growth(before, after, k)
  }

  /** Expanding the differences gives the samples, and nothing else is the samples. */
  lemma DifferenceIsSamples(d: seq<Bucket>, before: Counts, after: Counts, s: seq<nat>)
    requires IsDifference(d, before, after)
    ensures Samples(s, before, after) <==> s == Expand(d)
  {
    ExpandSorted(d);
    forall k: nat ensures multiset(Expand(d))[k] == Growth(before, after, k) {
      ExpandCounts(d, k);
    }
    if Samples(s, before, after) {
      assert forall k: nat :: multiset(s)[k] == multiset(Expand(d))[k];
      assert multiset(s) == multiset(Expand(d));
      SortedAreUnique(s, Expand(d));
    }
  }

  lemma {:induction false} ListCountOf(d: seq<Bucket>, k: nat)
    requires Ascending(d)
    ensures (forall i :: 0 <= i < |d| ==> d[i].index != k) ==> ListCount(d, k) == 0
    ensures forall i :: 0 <= i < |d| && d[i].index == k ==> ListCount(d, k) == d[i].count
  {
    if d != [] { ListCountOf(d[..|d| - 1], k); }
  }

  lemma DifferencesAre(indexes: seq<nat>, before: Counts, after: Counts, d: seq<Bucket>)
    requires forall i, j :: 0 <= i < j < |indexes| ==> indexes[i] < indexes[j]
    requires forall k :: k in indexes <==> k in before || k in after
    requires |d| == |indexes| && forall i :: 0 <= i < |d| ==> d[i].index == indexes[i]
    requires forall i :: 0 <= i < |d| ==> d[i].count == Growth(before, after, indexes[i])
    ensures IsDifference(d, before, after)
  {
    forall k: nat ensures ListCount(d, k) == Growth(before, after, k) {
      ListCountOf(d, k);
      if k in indexes {
        var i :| 0 <= i < |indexes| && indexes[i] == k;
        assert d[i].index == k;
      }
    }
  }

  /** The differences in bucket order, or the first bucket that shrank. */
  method BucketGrowth(before: Counts, after: Counts) returns (r: Result<seq<Bucket>, Problem>)
    ensures r.Ok? ==> IsDifference(r.value, before, after)
    ensures r.Err? ==> exists k: nat ::
      && r.error == Regressed(k) && Growth(before, after, k) < 0
      && forall other: nat :: other < k ==> Growth(before, after, other) >= 0
  {
    var indexes := SortedIndexes(before.Keys + after.Keys);
    var d: seq<Bucket> := [];
    for n := 0 to |indexes|
      invariant |d| == n
      invariant forall i :: 0 <= i < n ==> d[i].index == indexes[i]
      invariant forall i :: 0 <= i < n ==> d[i].count == Growth(before, after, indexes[i])
    {
      var k := indexes[n];
      var beforeCount, afterCount := Count(before, k), Count(after, k);
      if afterCount < beforeCount {
        forall other: nat | other < k ensures Growth(before, after, other) >= 0 {
          if other in indexes {
            var i :| 0 <= i < |indexes| && indexes[i] == other;
            assert i < n;
          }
        }
        return Err(Regressed(k));
      }
      d := d + [Bucket(k, afterCount - beforeCount)];
    }
    DifferencesAre(indexes, before, after, d);
    return Ok(d);
  }

  lemma OneMoreBucket(d: seq<Bucket>, i: nat)
    requires i < |d|
    ensures |Expand(d[..i + 1])| == |Expand(d[..i])| + d[i].count
  {
    ExpandStep(d, i);
  }

  method SampleCount(d: seq<Bucket>) returns (n: nat)
    ensures n == |Expand(d)|
  {
    n := 0;
    for i := 0 to |d|
      invariant n == |Expand(d[..i])|
    {
      OneMoreBucket(d, i);
      n := n + d[i].count;
    }
    assert d[..|d|] == d;
  }

  lemma RankIsHere(d: seq<Bucket>, i: nat, rank: nat, overflow: nat, width: nat)
    requires i < |d| && |Expand(d[..i])| < rank <= |Expand(d[..i + 1])| && rank == Rank(|Expand(d)|)
    ensures Percentile(Expand(d), overflow, width) == LatencyOf(d[i].index, overflow, width)
  {
    ExpandAt(d, i, rank - 1);
  }

  /** The rank loop: it always finds its bucket, so the error behind it cannot be reached. */
  method FindRank(d: seq<Bucket>, overflow: nat, width: nat) returns (r: Latency)
    ensures r == Percentile(Expand(d), overflow, width)
  {
    var sampleCount := SampleCount(d);
    if sampleCount == 0 {
      return Ms(0.0);
    }
    var rank := Rank(sampleCount);
    var observed := 0;
    assert d[..|d|] == d;
    for i := 0 to |d|
      invariant observed == |Expand(d[..i])| && observed < rank
    {
      OneMoreBucket(d, i);
      observed := observed + d[i].count;
      if observed >= rank {
        RankIsHere(d, i, rank, overflow, width);
        if d[i].index >= overflow {
          return Infinite;
        }
        return Ms((d[i].index * width) as real / 1000.0);
      }
    }
    assert false;
  }

  /** What the p95 of two reports is: refused, or the percentile of the samples between them. */
  ghost predicate Answers(before: Report, after: Report, r: Result<Latency, Problem>) {
    if before.width != after.width || before.overflow != after.overflow then r == Err(GeometryChanged)
    else if forall k: nat :: Growth(before.counts, after.counts, k) >= 0 then
      && r.Ok?
      && (exists s :: Samples(s, before.counts, after.counts))
      && forall s :: Samples(s, before.counts, after.counts) ==> r.value == Percentile(s, after.overflow, after.width)
    else
      exists k: nat ::
        && r == Err(Regressed(k)) && Growth(before.counts, after.counts, k) < 0
        && forall other: nat :: other < k ==> Growth(before.counts, after.counts, other) >= 0
  }

  /** The computation in `requiredHistogramDeltaP95Ms` behind the two reads. */
  method DeltaP95(before: Report, after: Report) returns (r: Result<Latency, Problem>)
    ensures Answers(before, after, r)
  {
    if before.width != after.width || before.overflow != after.overflow {
      return Err(GeometryChanged);
    }
    var growth := BucketGrowth(before.counts, after.counts);
    if growth.Err? {
      return Err(growth.error);
    }
    var ms := FindRank(growth.value, after.overflow, after.width);
    DifferenceGrows(growth.value, before.counts, after.counts);
    DifferenceIsSamples(growth.value, before.counts, after.counts, Expand(growth.value));
    forall s ensures Samples(s, before.counts, after.counts) <==> s == Expand(growth.value) {
      DifferenceIsSamples(growth.value, before.counts, after.counts, s);
    }
    return Ok(ms);
  }

  lemma DifferenceGrows(d: seq<Bucket>, before: Counts, after: Counts)
    requires IsDifference(d, before, after)
    ensures forall k: nat :: Growth(before, after, k) >= 0
  {
    forall k: nat ensures Growth(before, after, k) >= 0 {
      assert ListCount(d, k) == Growth(before, after, k);
    }
  }

  /** `requiredHistogramDeltaP95Ms`. */
  method RequiredHistogramDeltaP95Ms(baseline: Option<Stage>, after: Option<Stage>)
    returns (r: Result<Latency, Problem>)
    ensures forall b, a ::
      baseline.Some? && after.Some? && Represents(baseline.value, b) && Represents(after.value, a) ==> Answers(b, a, r)
    ensures (baseline.None? || forall b :: !Represents(baseline.value, b)) ==> r.Err?
    ensures (after.None? || forall a :: !Represents(after.value, a)) ==> r.Err?
  {
    var first := CumulativeInputHistogram(baseline);
    if first.Err? { return Err(first.error); }
    var second := CumulativeInputHistogram(after);
    if second.Err? { return Err(second.error); }
    forall b | Represents(baseline.value, b) ensures b == first.value {
      ReportsAreUnique(baseline.value, b, first.value);
    }
    forall a | Represents(after.value, a) ensures a == second.value {
      ReportsAreUnique(after.value, a, second.value);
    }
    r := DeltaP95(first.value, second.value);
  }

  lemma ReportsAreUnique(stage: Stage, a: Report, b: Report)
    requires Represents(stage, a) && Represents(stage, b)
    ensures a == b
  {
    EntriesAreUnique(stage.histogram.value.buckets.value, a.overflow, a.counts, b.counts);
  }

  // ----- Sample counts -----

  /** `requiredMetricSequenceDelta`: the growth since the baseline, unless a value is missing or falls. */
  method RequiredMetricSequenceDelta(before: Json, baseline: Json, after: Json) returns (r: Result<real, Problem>)
    ensures r.Ok? <==>
      before.Number? && baseline.Number? && after.Number? && before.n <= baseline.n <= after.n
    ensures r.Ok? ==> r.value == after.n - baseline.n >= 0.0
    ensures r.Err? ==>
      r.error == if before.Number? && baseline.Number? && after.Number? then MetricRegressed else MissingNumber
  {
    if before.Other? || baseline.Other? || after.Other? {
      return Err(MissingNumber);
    }
    var values := [before.n, baseline.n, after.n];
    for index := 1 to |values|
      invariant forall i :: 1 <= i < index ==> values[i - 1] <= values[i]
    {
      if values[index] < values[index - 1] {
        return Err(MetricRegressed);
      }
    }
    assert values[0] <= values[1] <= values[2];
    return Ok(values[|values| - 1] - values[1]);
  }

  /**
   The samples of the p95 are exactly as many as the reported sample count grew by, which is
   also what the sequence check reports.
   */
  lemma SamplesAreTheReportedGrowth(b: Stage, a: Stage, before: Report, after: Report, s: seq<nat>)
    requires Represents(b, before) && Represents(a, after) && before.overflow == after.overflow
    requires Samples(s, before.counts, after.counts)
    ensures b.sampleCount.Number? && a.sampleCount.Number?
    ensures |s| as real == a.sampleCount.n - b.sampleCount.n
  {
    var n := after.overflow + 1;
    SamplesFit(s, before.counts, after.counts, n);
    SizeOfSamples(s, before.counts, after.counts, n);
  }

  lemma SamplesFit(s: seq<nat>, before: Counts, after: Counts, n: nat)
    requires Samples(s, before, after) && forall k :: k in before || k in after ==> k < n
    ensures forall i :: 0 <= i < |s| ==> s[i] < n
  {
    forall i | 0 <= i < |s| ensures s[i] < n {
      assert multiset(s)[s[i]] > 0;
      assert Growth(before, after, s[i]) > 0;
    }
  }

  lemma {:induction false} SizeOfSamples(s: seq<nat>, before: Counts, after: Counts, n: nat)
    requires forall k: nat :: k < n ==> multiset(s)[k] == Growth(before, after, k)
    requires forall i :: 0 <= i < |s| ==> s[i] < n
    ensures |s| == Total(after, n) - Total(before, n)
  {
    SizeByValue(s, n);
    ValuesAreGrowth(s, before, after, n);
  }

  /** How many elements of `s` are below `n`, value by value. */
  function Below(s: seq<nat>, n: nat): nat {
    if n == 0 then 0 else Below(s, n - 1) + multiset(s)[n - 1]
  }

  lemma {:induction false} ValuesAreGrowth(s: seq<nat>, before: Counts, after: Counts, n: nat)
    requires forall k: nat :: k < n ==> multiset(s)[k] == Growth(before, after, k)
    ensures Below(s, n) == Total(after, n) - Total(before, n)
  {
    if n > 0 { ValuesAreGrowth(s, before, after, n - 1); }
  }

  lemma {:induction false} BelowStep(s: seq<nat>, x: nat, n: nat)
    ensures Below(s + [x], n) == Below(s, n) + if x < n then 1 else 0
  {
    if n > 0 { BelowStep(s, x, n - 1); }
  }

  lemma {:induction false} BelowNone(n: nat)
    ensures Below([], n) == 0
  {
    if n > 0 { BelowNone(n - 1); }
  }

  lemma {:induction false} SizeByValue(s: seq<nat>, n: nat)
    requires forall i :: 0 <= i < |s| ==> s[i] < n
    ensures |s| == Below(s, n)
  {
    if s == [] {
      BelowNone(n);
    } else {
      var init, last := s[..|s| - 1], s[|s| - 1];
      SizeByValue(init, n);
      BelowStep(init, last, n);
      assert s == init + [last];
    }
  }
}
