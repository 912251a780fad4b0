/** Percentiles and order statistics: `src/stats.rs`, `src/group.rs`, `src/latency.rs`, and the tables of `score`. */
module Stats {
  import opened Base
  import opened Sorting

  function Itself(x: real): real { x }

  function Ascending(s: seq<real>): seq<real> { Sort(s, Itself) }

  function CountAtMost(s: seq<real>, t: real): (n: nat)
    ensures n <= |s|
  {
    if s == [] then 0 else (if s[0] <= t then 1 else 0) + CountAtMost(s[1..], t)
  }

  function CountBelow(s: seq<real>, t: real): (n: nat)
    ensures n <= |s|
  {
    if s == [] then 0 else (if s[0] < t then 1 else 0) + CountBelow(s[1..], t)
  }

  /* ---------- counting does not depend on order ---------- */

  lemma {:induction false} CountInsert(x: real, s: seq<real>, t: real)
    ensures CountAtMost(Insert(x, s, Itself), t) == CountAtMost(s, t) + if x <= t then 1 else 0
    ensures CountBelow(Insert(x, s, Itself), t) == CountBelow(s, t) + if x < t then 1 else 0
  {
    if s != [] && !(x < s[0]) {
      CountInsert(x, s[1..], t);
    } else {
      assert ([x] + s)[1..] == s;
    }
  }

  lemma {:induction false} CountLast(s: seq<real>, x: real, t: real)
    ensures CountAtMost(s + [x], t) == CountAtMost(s, t) + if x <= t then 1 else 0
    ensures CountBelow(s + [x], t) == CountBelow(s, t) + if x < t then 1 else 0
  {
    if s == [] {
      assert [] + [x] == [x] && [x][1..] == [];
    } else {
      CountLast(s[1..], x, t);
      assert (s + [x])[1..] == s[1..] + [x];
    }
  }

  lemma {:induction false} CountSorted(s: seq<real>, t: real)
    ensures CountAtMost(Ascending(s), t) == CountAtMost(s, t)
    ensures CountBelow(Ascending(s), t) == CountBelow(s, t)
  {
    if s != [] {
      var before, x := s[..|s| - 1], s[|s| - 1];
      CountSorted(before, t);
      CountInsert(x, Ascending(before), t);
      CountLast(before, x, t);
      assert s == before + [x];
    }
  }

  /** In a sorted list the first `i` places hold everything below the value at `i`. */
  lemma {:induction false} CountsAtRank(s: seq<real>, i: nat, t: real)
    requires Sorted(s, Itself) && i <= |s|
    ensures (i < |s| && s[i] <= t) ==> CountAtMost(s, t) >= i + 1
    ensures (i < |s| && t < s[i]) ==> CountAtMost(s, t) <= i
    ensures (i < |s| && t <= s[i]) ==> CountBelow(s, t) <= i
  {
    if s != [] {
      assert forall j :: 0 <= j < |s| ==> Itself(s[0]) <= Itself(s[j]);
      assert Sorted(s[1..], Itself);
      if i > 0 {
        CountsAtRank(s[1..], i - 1, t);
      } else {
        NoneBelow(s, t);
      }
    }
  }

  lemma {:induction false} NoneBelow(s: seq<real>, t: real)
    ensures (forall j :: 0 <= j < |s| ==> t < s[j]) ==> CountAtMost(s, t) == 0
    ensures (forall j :: 0 <= j < |s| ==> t <= s[j]) ==> CountBelow(s, t) == 0
  {
    if s != [] {
      NoneBelow(s[1..], t);
    }
  }

  /** The `m`-th smallest is at most `t` exactly when at least `m` values are. */
  lemma {:induction false} MthAtMostIff(s: seq<real>, m: nat, t: real)
    requires m >= 1
    ensures CountAtMost(s, t) >= m <==> |s| >= m && Ascending(s)[m - 1] <= t
  {
    SortSorts(s, Itself);
    CountSorted(s, t);
    if |s| >= m {
      CountsAtRank(Ascending(s), m - 1, t);
    }
  }

  /* ---------- nearest rank ---------- */

  function Ceil(x: real): (n: int)
    ensures n as real - 1.0 < x <= n as real
  {
    -((-x).Floor)
  }

  function Max(a: int, b: int): int { if a >= b then a else b }
  function Min(a: int, b: int): int { if a <= b then a else b }

  /** `pct` percent of `n` samples. */
  function Share(pct: real, n: nat): real { pct / 100.0 * n as real }

  /** At least one, rounded up, and no more than there are. */
  function RankIndex(share: real, n: nat): (i: nat)
    requires n > 0
    ensures i < n
  {
    Min(Max(Ceil(share), 1), n) - 1
  }

  /** `stats::nearest_rank`, on a sorted slice. */
  function NearestRank(sorted: seq<real>, pct: real): real
    requires sorted != []
  {
    sorted[RankIndex(Share(pct, |sorted|), |sorted|)]
  }

  /** `group::pct`, which sorts a copy and clamps the rank. */
  function Pct(v: seq<real>, p: real): real
    requires v != []
  {
    PctSorted(Ascending(v), p)
  }

  function PctSorted(s: seq<real>, p: real): real
    requires s != []
  {
    s[Max(1, Min(Ceil(Share(p, |s|)), |s|)) - 1]
  }

  /** `ParallelRun::at`, on the acknowledgement offsets, which are kept sorted. */
  function At(doneMs: seq<real>, frac: real): Option<real> {
    if doneMs == [] then None
    else Some(doneMs[Min(Max(Ceil(|doneMs| as real * frac), 1), |doneMs|) - 1])
  }

  lemma RanksAgree(s: seq<real>, pct: real)
    requires s != []
    ensures PctSorted(s, pct) == NearestRank(s, pct)
    ensures At(s, pct / 100.0) == Some(NearestRank(s, pct))
  {
    assert |s| as real * (pct / 100.0) == Share(pct, |s|);
  }

  /** The three implementations agree on every non-empty series and every percentage. */
  lemma {:induction false} ThreeRanksAgree(v: seq<real>, pct: real)
    requires v != []
    ensures Pct(v, pct) == NearestRank(Ascending(v), pct)
    ensures At(Ascending(v), pct / 100.0) == Some(NearestRank(Ascending(v), pct))
  {
    RanksAgree(Ascending(v), pct);
  }

  /**
   What a percentile means: an observed sample, with at least that share of the samples at or
   below it and less than that share below it.
   */
  lemma {:induction false} NearestRankMeans(v: seq<real>, pct: real)
    requires v != [] && 0.0 < pct <= 100.0
    ensures var x := NearestRank(Ascending(v), pct);
            && x in v
            && CountAtMost(v, x) as real >= Share(pct, |v|)
            && (CountBelow(v, x) as real) < Share(pct, |v|)
  {
    SortSorts(v, Itself);
    forall t
      ensures CountAtMost(Ascending(v), t) == CountAtMost(v, t)
      ensures CountBelow(Ascending(v), t) == CountBelow(v, t)
    {
      CountSorted(v, t);
    }
    NearestRankTransfers(v, Ascending(v), pct);
  }

  lemma {:induction false} NearestRankTransfers(v: seq<real>, s: seq<real>, pct: real)
    requires v != [] && |s| == |v| && multiset(s) == multiset(v) && Sorted(s, Itself)
    requires 0.0 < pct <= 100.0
    requires forall t :: CountAtMost(s, t) == CountAtMost(v, t) && CountBelow(s, t) == CountBelow(v, t)
    ensures var x := NearestRank(s, pct);
            && x in v
            && CountAtMost(v, x) as real >= Share(pct, |v|)
            && (CountBelow(v, x) as real) < Share(pct, |v|)
  {
    ShareOf(pct, |s|);
    var i := RankIndex(Share(pct, |s|), |s|);
    CountsAtRank(s, i, s[i]);
    assert s[i] in multiset(v);
  }

  lemma ShareOf(pct: real, n: nat)
    requires n > 0 && 0.0 < pct <= 100.0
    ensures 0.0 < Share(pct, n) <= n as real
  {
    var f := pct / 100.0;
    assert 0.0 < f <= 1.0;
    assert n as real - f * n as real == (1.0 - f) * n as real;
  }

  /* ---------- the five numbers ---------- */

  datatype Summary = Summary(n: nat, min: real, p50: real, p90: real, p99: real, max: real)

  function SummaryOf(samples: seq<real>): Option<Summary> {
    if samples == [] then None
    else
      var s := Ascending(samples);
      Some(Summary(|s|, s[0], NearestRank(s, 50.0), NearestRank(s, 90.0), NearestRank(s, 99.0), s[|s| - 1]))
  }

  lemma {:induction false} RankMonotone(s: seq<real>, p: real, q: real)
    requires Sorted(s, Itself) && s != [] && p <= q
    ensures s[0] <= NearestRank(s, p) <= NearestRank(s, q) <= s[|s| - 1]
  {
    ShareGrows(p, q, |s|);
    assert forall i, j :: 0 <= i < j < |s| ==> Itself(s[i]) <= Itself(s[j]);
  }

  lemma ShareGrows(p: real, q: real, n: nat)
    requires p <= q
    ensures Share(p, n) <= Share(q, n)
  {
    var d := q / 100.0 - p / 100.0;
    assert Share(q, n) - Share(p, n) == d * n as real;
    assert d * n as real >= 0.0;
  }

  /** An observed sample with at least this percentage of the samples at or below it and less than that below. */
  ghost predicate HasShare(a: seq<real>, x: real, pct: real) {
    x in a && (CountBelow(a, x) as real) < pct / 100.0 * |a| as real <= CountAtMost(a, x) as real
  }

  /** What the five numbers are: the count, the extremes, and the samples at three shares. */
  lemma {:induction false} SummaryMeans(a: seq<real>)
    requires a != []
    ensures SummaryOf(a).Some?
    ensures var x := SummaryOf(a).value;
            && x.n == |a| && HasShare(a, x.p50, 50.0) && HasShare(a, x.p90, 90.0) && HasShare(a, x.p99, 99.0)
            && x.min in a && x.max in a && (forall v :: v in a ==> x.min <= v <= x.max)
  {
    SortSorts(a, Itself);
    NearestRankMeans(a, 50.0);
    NearestRankMeans(a, 90.0);
    NearestRankMeans(a, 99.0);
    EndsOfSorted(a, Ascending(a));
  }

  lemma EndsOfSorted(a: seq<real>, s: seq<real>)
    requires s != [] && multiset(s) == multiset(a) && Sorted(s, Itself)
    ensures s[0] in a && s[|s| - 1] in a && forall v :: v in a ==> s[0] <= v <= s[|s| - 1]
  {
    forall v | v in a ensures s[0] <= v <= s[|s| - 1] {
      assert v in multiset(s);
      var i :| 0 <= i < |s| && s[i] == v;
      assert i > 0 ==> Itself(s[0]) <= Itself(s[i]);
      assert i < |s| - 1 ==> Itself(s[i]) <= Itself(s[|s| - 1]);
    }
    assert s[0] in multiset(s) && s[|s| - 1] in multiset(s);
  }

  /** Ordered, and the same however the samples were collected. */
  lemma {:induction false} SummaryIsOrderedAndOrderFree(a: seq<real>, b: seq<real>)
    requires multiset(a) == multiset(b)
    ensures SummaryOf(a) == SummaryOf(b)
    ensures a != [] ==> var x := SummaryOf(a).value; x.min <= x.p50 <= x.p90 <= x.p99 <= x.max
  {
    assert |a| == |multiset(a)| == |multiset(b)| == |b|;
    SortIgnoresOrder(a, b, Itself);
    if a != [] {
      SortSorts(a, Itself);
      RankMonotone(Ascending(a), 50.0, 90.0);
      RankMonotone(Ascending(a), 90.0, 99.0);
    }
  }

  /* ---------- groups with parity ---------- */

  /** One member of a group: its index, whether it is parity, and when it was first read. */
  datatype Member = Member(idx: nat, parity: bool, time: Option<real>)

  /** Members a reader with `p` of the parity blocks would have. */
  predicate Counts(b: Member, m: nat, p: nat) { !b.parity || b.idx < m + p }

  function ArrivalsWith(g: seq<Member>, m: nat, p: nat): seq<real> {
    if g == [] then []
    else (if Counts(g[0], m, p) && g[0].time.Some? then [g[0].time.value] else []) + ArrivalsWith(g[1..], m, p)
  }

  function Arrivals(g: seq<Member>): seq<real> {
    if g == [] then [] else (if g[0].time.Some? then [g[0].time.value] else []) + Arrivals(g[1..])
  }

  function DataArrivals(g: seq<Member>): seq<real> { ArrivalsWith(Data(g), 0, 0) }

  function Data(g: seq<Member>): seq<Member> {
    if g == [] then [] else (if g[0].parity then [] else [g[0]]) + Data(g[1..])
  }

  /** How many of a group's counted members were read by `t`. */
  function ReadBy(g: seq<Member>, m: nat, p: nat, t: real): nat {
    if g == [] then 0
    else (if Counts(g[0], m, p) && g[0].time.Some? && g[0].time.value <= t then 1 else 0) + ReadBy(g[1..], m, p, t)
  }

  /** Table 3: `m` of `m + p` in time. */
  predicate Readable(g: seq<Member>, m: nat, p: nat, t: real) { ReadBy(g, m, p, t) >= m }

  lemma {:induction false} ReadByCounts(g: seq<Member>, m: nat, p: nat, t: real)
    ensures ReadBy(g, m, p, t) == CountAtMost(ArrivalsWith(g, m, p), t)
  {
    if g != [] {
      ReadByCounts(g[1..], m, p, t);
      var rest := ArrivalsWith(g[1..], m, p);
      if Counts(g[0], m, p) && g[0].time.Some? {
        assert ([g[0].time.value] + rest)[1..] == rest;
      } else {
        assert [] + rest == rest;
      }
    }
  }

  /** What a reader with `p` of the parity blocks sees of each member. */
  function SeenOf(g: seq<Member>, m: nat, p: nat): (ts: seq<Option<real>>)
    ensures |ts| == |g|
  {
    seq(|g|, i requires 0 <= i < |g| => if !g[i].parity || g[i].idx < m + p then g[i].time else None)
  }

  function TimesOf(g: seq<Member>): (ts: seq<Option<real>>)
    ensures |ts| == |g|
  {
    seq(|g|, i requires 0 <= i < |g| => g[i].time)
  }

  function DataTimesOf(g: seq<Member>): (ts: seq<Option<real>>)
    ensures |ts| == |g|
  {
    seq(|g|, i requires 0 <= i < |g| => if g[i].parity then None else g[i].time)
  }

  /** The arrival lists, member by member: with some of the parity left out, and all of them. */
  lemma {:induction false} ArrivalsAre(g: seq<Member>, m: nat, p: nat)
    ensures ArrivalsWith(g, m, p) == Somes(SeenOf(g, m, p))
    ensures Arrivals(g) == Somes(TimesOf(g))
  {
    if g != [] {
      var rest := g[1..];
      ArrivalsAre(rest, m, p);
      assert SeenOf(g, m, p)[1..] == SeenOf(rest, m, p) && TimesOf(g)[1..] == TimesOf(rest);
      SomesFirst(SeenOf(g, m, p));
      SomesFirst(TimesOf(g));
      NothingAdded(ArrivalsWith(rest, m, p));
      NothingAdded(Arrivals(rest));
    }
  }

  /** And the data alone. */
  lemma {:induction false} DataArrivalsAre(g: seq<Member>)
    ensures DataArrivals(g) == Somes(DataTimesOf(g))
  {
    if g != [] {
      var rest := g[1..];
      DataArrivalsAre(rest);
      assert DataTimesOf(g)[1..] == DataTimesOf(rest);
      SomesFirst(DataTimesOf(g));
      NothingAdded(DataArrivals(rest));
      assert !g[0].parity ==> ([g[0]] + Data(rest))[1..] == Data(rest);
      assert [] + Data(rest) == Data(rest);
    }
  }

  /** The members among the first `n` that are read in time, by a reader with `p` of the parity blocks. */
  ghost function InTime(g: seq<Member>, m: nat, p: nat, t: real, n: nat): set<int>
    requires n <= |g|
  {
    set i | 0 <= i < n && (!g[i].parity || g[i].idx < m + p) && g[i].time.Some? && g[i].time.value <= t
  }

  lemma {:induction false} ReadByIs(g: seq<Member>, m: nat, p: nat, t: real, n: nat)
    requires n <= |g|
    ensures ReadBy(g[..n], m, p, t) == |InTime(g, m, p, t, n)|
  {
    if n == 0 {
      assert InTime(g, m, p, t, 0) == {};
    } else {
      ReadByIs(g, m, p, t, n - 1);
      ReadByLast(g[..n - 1], g[n - 1], m, p, t);
      assert g[..n] == g[..n - 1] + [g[n - 1]];
      OneMoreInTime(g, m, p, t, n - 1);
    }
  }

  lemma OneMoreInTime(g: seq<Member>, m: nat, p: nat, t: real, n: nat)
    requires n < |g|
    ensures var b := g[n];
            |InTime(g, m, p, t, n + 1)| == |InTime(g, m, p, t, n)|
              + if (!b.parity || b.idx < m + p) && b.time.Some? && b.time.value <= t then 1 else 0
  {
    var before, after := InTime(g, m, p, t, n), InTime(g, m, p, t, n + 1);
    if n in after {
      assert after == before + {n};
    } else {
      assert after == before;
    }
  }

  lemma {:induction false} ReadByLast(g: seq<Member>, b: Member, m: nat, p: nat, t: real)
    ensures ReadBy(g + [b], m, p, t) == ReadBy(g, m, p, t)
              + if (!b.parity || b.idx < m + p) && b.time.Some? && b.time.value <= t then 1 else 0
  {
    if g == [] {
      assert [] + [b] == [b] && [b][1..] == [];
    } else {
      ReadByLast(g[1..], b, m, p, t);
      assert (g + [b])[1..] == g[1..] + [b];
    }
  }

  /** A group is readable within `t` exactly when the `m`-th of its arrivals exists and is in time. */
  lemma {:induction false} ReadableIffMthArrived(g: seq<Member>, m: nat, p: nat, t: real)
    requires m >= 1
    ensures Readable(g, m, p, t) <==>
              var a := ArrivalsWith(g, m, p); |a| >= m && Ascending(a)[m - 1] <= t
  {
    ReadByCounts(g, m, p, t);
    MthAtMostIff(ArrivalsWith(g, m, p), m, t);
  }

  lemma {:induction false} ReadByGrows(g: seq<Member>, m: nat, p: nat, q: nat, t: real, u: real)
    requires p <= q && t <= u
    ensures ReadBy(g, m, p, t) <= ReadBy(g, m, q, u)
  {
    if g != [] {
      ReadByGrows(g[1..], m, p, q, t, u);
    }
  }

  /** More time or more parity never makes a readable group unreadable. */
  lemma {:induction false} ReadableGrows(g: seq<Member>, m: nat, p: nat, q: nat, t: real, u: real)
    requires p <= q && t <= u && Readable(g, m, p, t)
    ensures Readable(g, m, q, u)
  {
    ReadByGrows(g, m, p, q, t, u);
  }

  lemma {:induction false} DataWithinAll(g: seq<Member>, t: real)
    ensures CountAtMost(DataArrivals(g), t) <= CountAtMost(Arrivals(g), t)
    ensures |DataArrivals(g)| <= |Arrivals(g)|
  {
    if g != [] {
      DataWithinAll(g[1..], t);
      var rest, more := Arrivals(g[1..]), DataArrivals(g[1..]);
      assert Arrivals(g) == (if g[0].time.Some? then [g[0].time.value] else []) + rest;
      if g[0].time.Some? {
        assert ([g[0].time.value] + rest)[1..] == rest && ([g[0].time.value] + more)[1..] == more;
      } else {
        assert [] + rest == rest && [] + more == more;
      }
      if g[0].parity {
        assert Data(g) == Data(g[1..]);
      } else {
        assert Data(g)[1..] == Data(g[1..]);
      }
    }
  }

  /** Table 5: whenever all `m` data members arrived, the whole group was readable no later. */
  lemma {:induction false} MthOfAllBeatsLastData(g: seq<Member>, m: nat)
    requires m >= 1 && |DataArrivals(g)| == m
    ensures |Arrivals(g)| >= m
    ensures Ascending(Arrivals(g))[m - 1] <= Ascending(DataArrivals(g))[m - 1]
  {
    var t := Ascending(DataArrivals(g))[m - 1];
    MthAtMostIff(DataArrivals(g), m, t);
    DataWithinAll(g, t);
    MthAtMostIff(Arrivals(g), m, t);
  }

  /** `one_group`: the time to the first `k` pieces is no later than the time to all `n`. */
  function ToNth(hits: seq<real>, k: nat): Option<real>
    requires k >= 1
  {
    if |hits| >= k then Some(Ascending(hits)[k - 1]) else None
  }

  lemma {:induction false} FirstKBeforeAll(hits: seq<real>, k: nat, n: nat)
    requires 1 <= k <= n && ToNth(hits, n).Some?
    ensures ToNth(hits, k).Some? && ToNth(hits, k).value <= ToNth(hits, n).value
  {
    SortSorts(hits, Itself);
    assert k < n ==> Itself(Ascending(hits)[k - 1]) <= Itself(Ascending(hits)[n - 1]);
  }

  /* ---------- misses per group ---------- */

  function Missed(g: seq<Member>): nat {
    if g == [] then 0 else (if g[0].time.None? then 1 else 0) + Missed(g[1..])
  }

  /** Table 4's rows: 0 to 3 misses, and 4 or more. */
  predicate InBucket(k: nat, missed: nat) { if k == 4 then missed >= 4 else missed == k }

  function Bucket(gs: seq<seq<Member>>, k: nat): nat {
    if gs == [] then 0 else (if InBucket(k, Missed(gs[0])) then 1 else 0) + Bucket(gs[1..], k)
  }

  /** Every member of a group has arrived or is missed. */
  lemma {:induction false} MissedIs(g: seq<Member>)
    ensures Missed(g) + |Somes(TimesOf(g))| == |g|
  {
    if g != [] {
      MissedIs(g[1..]);
      assert TimesOf(g)[1..] == TimesOf(g[1..]);
      SomesFirst(TimesOf(g));
    }
  }

  /** A row's count is the number of groups with that many members missed, or with four or more. */
  lemma {:induction false} BucketIs(gs: seq<seq<Member>>, k: nat, g: seq<Member>)
    ensures Bucket([g] + gs, k) == Bucket(gs, k)
              + if (k == 4 && Missed(g) >= 4) || (k != 4 && Missed(g) == k) then 1 else 0
    ensures Bucket([], k) == 0
  {
    assert ([g] + gs)[1..] == gs;
  }

  /** Every group falls in exactly one row, and misses and arrivals account for every member. */
  lemma {:induction false} BucketsPartition(gs: seq<seq<Member>>)
    ensures Bucket(gs, 0) + Bucket(gs, 1) + Bucket(gs, 2) + Bucket(gs, 3) + Bucket(gs, 4) == |gs|
  {
    if gs != [] {
      BucketsPartition(gs[1..]);
    }
  }
}
