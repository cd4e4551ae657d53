/**
 src/resolvers/index.ts, storageUsageTrend: one point per day with the storage
 accumulated so far. A day stands for the date part of `createdAt`.
 */
module StorageTrend {
  import opened Option
  import opened OrderedMap

  datatype Deployment = Deployment(day: int, pinSize: Option<int>)
  datatype Point = Point(date: int, totalSize: int, deploymentCount: nat)
  datatype Day = Day(totalSize: int, deploymentCount: nat)

  function Size(d: Deployment): int {
    if d.pinSize.Some? then d.pinSize.value else 0
  }

  // ---- The specification ----

  function CountOn(ds: seq<Deployment>, day: int): nat {
    if ds == [] then 0
    else CountOn(ds[..|ds| - 1], day) + if ds[|ds| - 1].day == day then 1 else 0
  }

  function SizeOn(ds: seq<Deployment>, day: int): int {
    if ds == [] then 0
    else SizeOn(ds[..|ds| - 1], day) + if ds[|ds| - 1].day == day then Size(ds[|ds| - 1]) else 0
  }

  function SizeUpTo(ds: seq<Deployment>, day: int): int {
    if ds == [] then 0
    else SizeUpTo(ds[..|ds| - 1], day) + if ds[|ds| - 1].day <= day then Size(ds[|ds| - 1]) else 0
  }

  function TotalSize(ds: seq<Deployment>): int {
    if ds == [] then 0 else TotalSize(ds[..|ds| - 1]) + Size(ds[|ds| - 1])
  }

  /** What one more deployment adds: its pinned size, or nothing if it has none, from its day on. */
  lemma OneMore(ds: seq<Deployment>, d: Deployment, day: int)
    ensures SizeUpTo([], day) == 0 && CountOn([], day) == 0 && TotalSize([]) == 0
    ensures SizeUpTo(ds + [d], day) ==
            SizeUpTo(ds, day) + if d.day <= day && d.pinSize.Some? then d.pinSize.value else 0
    ensures TotalSize(ds + [d]) == TotalSize(ds) + if d.pinSize.Some? then d.pinSize.value else 0
    ensures CountOn(ds + [d], day) == CountOn(ds, day) + if d.day == day then 1 else 0
  {
    assert (ds + [d])[..|ds|] == ds;
  }

  ghost predicate Increasing(days: seq<int>) {
    forall i, j :: 0 <= i < j < |days| ==> days[i] < days[j]
  }

  /**
   The trend of `ds`: one point for each day with a deployment, in order, with
   that day's count and everything stored on or before it.
   */
  ghost predicate IsTrend(ds: seq<Deployment>, trend: seq<Point>) {
    && (forall i, j :: 0 <= i < j < |trend| ==> trend[i].date < trend[j].date)
    && (forall i :: 0 <= i < |trend| ==>
          && trend[i].deploymentCount == CountOn(ds, trend[i].date) > 0
          && trend[i].totalSize == SizeUpTo(ds, trend[i].date))
    && (forall d :: d in ds ==> exists i :: 0 <= i < |trend| && trend[i].date == d.day)
  }

  lemma {:induction false} CountedDay(ds: seq<Deployment>, day: int)
    ensures CountOn(ds, day) > 0 <==> exists d :: d in ds && d.day == day
  {
    if ds == [] {
    } else {
      CountedDay(ds[..|ds| - 1], day);
      assert ds == ds[..|ds| - 1] + [ds[|ds| - 1]];
    }
  }

  /** For sizes that are not negative, the accumulated size never falls. */
  lemma {:induction false} NeverFalls(ds: seq<Deployment>, early: int, late: int)
    requires early <= late && forall d :: d in ds ==> Size(d) >= 0
    ensures SizeUpTo(ds, early) <= SizeUpTo(ds, late)
  {
    if ds == [] {
    } else {
      NeverFalls(ds[..|ds| - 1], early, late);
    }
  }

  lemma {:induction false} UpToLastIsAll(ds: seq<Deployment>, day: int)
    requires forall d :: d in ds ==> d.day <= day
    ensures SizeUpTo(ds, day) == TotalSize(ds)
  {
    if ds == [] {
    } else {
      UpToLastIsAll(ds[..|ds| - 1], day);
    }
  }

  function SumOfCounts(trend: seq<Point>): nat {
    if trend == [] then 0 else SumOfCounts(trend[..|trend| - 1]) + trend[|trend| - 1].deploymentCount
  }

  function Before(ds: seq<Deployment>, day: int): (r: seq<Deployment>)
    ensures forall d :: d in r <==> d in ds && d.day < day
  {
    if ds == [] then []
    else
      assert ds == ds[..|ds| - 1] + [ds[|ds| - 1]];
      Before(ds[..|ds| - 1], day) + if ds[|ds| - 1].day < day then [ds[|ds| - 1]] else []
  }

  lemma CountAppended(ds: seq<Deployment>, d: Deployment, day: int)
    ensures CountOn(ds + [d], day) == CountOn(ds, day) + if d.day == day then 1 else 0
  {
    assert (ds + [d])[..|ds|] == ds;
  }

  lemma {:induction false} CountBefore(ds: seq<Deployment>, day: int, early: int)
    requires early < day
    ensures CountOn(Before(ds, day), early) == CountOn(ds, early)
  {
    if ds == [] {
    } else {
      var last, kept := ds[|ds| - 1], Before(ds[..|ds| - 1], day);
      CountBefore(ds[..|ds| - 1], day, early);
      if last.day < day {
        CountAppended(kept, last, early);
        assert Before(ds, day) == kept + [last];
      } else {
        assert Before(ds, day) == kept;
      }
    }
  }

  lemma {:induction false} SplitAtDay(ds: seq<Deployment>, day: int)
    requires forall d :: d in ds ==> d.day <= day
    ensures |ds| == |Before(ds, day)| + CountOn(ds, day)
  {
    if ds == [] {
    } else {
      SplitAtDay(ds[..|ds| - 1], day);
    }
  }

  ghost predicate CountsEachDay(ds: seq<Deployment>, trend: seq<Point>) {
    && (forall i, j :: 0 <= i < j < |trend| ==> trend[i].date < trend[j].date)
    && (forall i :: 0 <= i < |trend| ==> trend[i].deploymentCount == CountOn(ds, trend[i].date))
    && (forall d :: d in ds ==> exists i :: 0 <= i < |trend| && trend[i].date == d.day)
  }

  lemma SomeDeployment(ds: seq<Deployment>)
    ensures ds != [] ==> exists d :: d in ds
  {
    if ds != [] { assert ds[0] in ds; }
  }

  lemma {:induction false} CountsCoverAll(ds: seq<Deployment>, trend: seq<Point>)
    requires CountsEachDay(ds, trend)
    ensures SumOfCounts(trend) == |ds|
    decreases |trend|
  {
    if trend == [] {
      SomeDeployment(ds);
    } else {
      var n := |trend| - 1;
      DropLastDay(ds, trend);
      SplitAtDay(ds, trend[n].date);
      CountsCoverAll(Before(ds, trend[n].date), trend[..n]);
    }
  }

  lemma DropLastDay(ds: seq<Deployment>, trend: seq<Point>)
    requires CountsEachDay(ds, trend) && trend != []
    ensures forall d :: d in ds ==> d.day <= trend[|trend| - 1].date
    ensures CountsEachDay(Before(ds, trend[|trend| - 1].date), trend[..|trend| - 1])
  {
    var n := |trend| - 1;
    var day := trend[n].date;
    forall early | early < day { CountBefore(ds, day, early); }
    forall d | d in Before(ds, day)
      ensures exists i :: 0 <= i < n && trend[..n][i].date == d.day
    {
      var i :| 0 <= i < |trend| && trend[i].date == d.day;
      assert trend[..n][i] == trend[i];
    }
  }

  /** What a reader of the trend can rely on. */
  lemma TrendConserves(ds: seq<Deployment>, trend: seq<Point>)
    requires IsTrend(ds, trend)
    ensures SumOfCounts(trend) == |ds|
    ensures trend == [] <==> ds == []
    ensures trend != [] ==> trend[|trend| - 1].totalSize == TotalSize(ds)
    ensures (forall d :: d in ds ==> Size(d) >= 0) ==>
              forall i, j :: 0 <= i < j < |trend| ==> trend[i].totalSize <= trend[j].totalSize
  {
    CountsCoverAll(ds, trend);
    if trend != [] {
      var last := trend[|trend| - 1].date;
      CountedDay(ds, last);
      UpToLastIsAll(ds, last);
    }
    if forall d :: d in ds ==> Size(d) >= 0 {
      forall i, j | 0 <= i < j < |trend|
        ensures trend[i].totalSize <= trend[j].totalSize
      {
        NeverFalls(ds, trend[i].date, trend[j].date);
      }
    }
  }

  /** The specification leaves no choice: two trends of the same deployments are equal. */
  lemma {:induction false} TrendIsUnique(ds: seq<Deployment>, a: seq<Point>, b: seq<Point>)
    requires IsTrend(ds, a) && IsTrend(ds, b)
    ensures a == b
  {
    forall day
      ensures HasDate(a, day) <==> CountOn(ds, day) > 0
      ensures HasDate(b, day) <==> CountOn(ds, day) > 0
    {
      CountedDay(ds, day);
    }
    SameDates(a, b);
  }

  ghost predicate HasDate(trend: seq<Point>, day: int) {
    exists i :: 0 <= i < |trend| && trend[i].date == day
  }

  lemma {:induction false} SameDates(a: seq<Point>, b: seq<Point>)
    requires forall i, j :: 0 <= i < j < |a| ==> a[i].date < a[j].date
    requires forall i, j :: 0 <= i < j < |b| ==> b[i].date < b[j].date
    requires forall day :: HasDate(a, day) <==> HasDate(b, day)
    ensures |a| == |b| && forall i :: 0 <= i < |a| ==> a[i].date == b[i].date
  {
    if a == [] {
      if b != [] { assert HasDate(b, b[0].date); }
    } else {
      var n := |a| - 1;
      assert HasDate(a, a[n].date);
      var m := |b| - 1;
      assert HasDate(b, b[m].date);
      assert a[n].date == b[m].date;
      forall day
        ensures HasDate(a[..n], day) <==> HasDate(b[..m], day)
      {
        assert HasDate(a[..n], day) <==> HasDate(a, day) && day < a[n].date by { DropLast(a, day); }
        assert HasDate(b[..m], day) <==> HasDate(b, day) && day < b[m].date by { DropLast(b, day); }
      }
      SameDates(a[..n], b[..m]);
    }
  }

  lemma DropLast(a: seq<Point>, day: int)
    requires a != [] && forall i, j :: 0 <= i < j < |a| ==> a[i].date < a[j].date
    ensures HasDate(a[..|a| - 1], day) <==> HasDate(a, day) && day < a[|a| - 1].date
  {
  }

  // ---- The resolver ----

  /** `daily` holds, for each day with a deployment, that day's size and count. */
  ghost predicate Tallies(daily: OrderedMap<int, Day>, ds: seq<Deployment>) {
    && daily.Valid()
    && (forall day :: day in daily.at <==> CountOn(ds, day) > 0)
    && forall day :: day in daily.at ==> daily.at[day] == Day(SizeOn(ds, day), CountOn(ds, day))
  }

  lemma {:induction false} NoDeploymentNoSize(ds: seq<Deployment>, day: int)
    ensures CountOn(ds, day) == 0 ==> SizeOn(ds, day) == 0
  {
    if ds == [] {
    } else {
      NoDeploymentNoSize(ds[..|ds| - 1], day);
    }
  }

  function Record(daily: OrderedMap<int, Day>, d: Deployment): OrderedMap<int, Day>
    requires daily.Valid()
  {
    var existing := if d.day in daily.at then daily.at[d.day] else Day(0, 0);
    daily.Set(d.day, Day(existing.totalSize + Size(d), existing.deploymentCount + 1))
  }

  lemma RecordTallies(daily: OrderedMap<int, Day>, ds: seq<Deployment>, d: Deployment)
    requires Tallies(daily, ds)
    ensures Tallies(Record(daily, d), ds + [d])
  {
    assert (ds + [d])[..|ds|] == ds;
    NoDeploymentNoSize(ds, d.day);
  }

  function Flatten(sites: seq<seq<Deployment>>): seq<Deployment> {
    if sites == [] then [] else Flatten(sites[..|sites| - 1]) + sites[|sites| - 1]
  }

  /** Days in ascending order; the source sorts the map's entries by their date keys. */
  function Sort(days: seq<int>): seq<int> {
    if days == [] then [] else Insert(Sort(days[1..]), days[0])
  }

  function Insert(days: seq<int>, day: int): seq<int> {
    if days == [] || day <= days[0] then [day] + days else [days[0]] + Insert(days[1..], day)
  }

  lemma {:induction false} InsertKeepsOrder(days: seq<int>, day: int)
    requires Increasing(days)
    ensures forall d :: d in Insert(days, day) <==> d in days || d == day
    ensures day !in days ==> Increasing(Insert(days, day))
  {
    if days == [] {
    } else {
      assert days == [days[0]] + days[1..];
      if day > days[0] {
        InsertKeepsOrder(days[1..], day);
        forall k | 0 <= k < |Insert(days[1..], day)|
          ensures days[0] < Insert(days[1..], day)[k]
        {
          assert Insert(days[1..], day)[k] in Insert(days[1..], day);
        }
      } else if day !in days {
        assert days[0] in days;
      }
    }
  }

  lemma {:induction false} SortOrders(days: seq<int>)
    requires NoDuplicates(days)
    ensures Increasing(Sort(days))
    ensures forall d :: d in Sort(days) <==> d in days
  {
    if days == [] {
    } else {
      assert days == [days[0]] + days[1..];
      assert forall i :: 0 <= i < |days| - 1 ==> days[1..][i] == days[i + 1];
      SortOrders(days[1..]);
      InsertKeepsOrder(Sort(days[1..]), days[0]);
    }
  }

  /** Between consecutive days with deployments, nothing else is accumulated. */
  lemma {:induction false} AccumulateDay(ds: seq<Deployment>, earlier: int, day: int)
    requires earlier < day && forall d :: d in ds ==> d.day <= earlier || d.day >= day
    ensures SizeUpTo(ds, day) == SizeUpTo(ds, earlier) + SizeOn(ds, day)
  {
    if ds == [] {
    } else {
      AccumulateDay(ds[..|ds| - 1], earlier, day);
    }
  }

  lemma {:induction false} FirstDay(ds: seq<Deployment>, day: int)
    requires forall d :: d in ds ==> d.day >= day
    ensures SizeUpTo(ds, day) == SizeOn(ds, day)
  {
    if ds == [] {
    } else {
      FirstDay(ds[..|ds| - 1], day);
    }
  }

  method TallyByDay(sites: seq<seq<Deployment>>) returns (daily: OrderedMap<int, Day>)
    ensures Tallies(daily, Flatten(sites))
  {
    daily := Empty();
    for i := 0 to |sites|
      invariant Tallies(daily, Flatten(sites[..i]))
    {
      var deployments := sites[i];
      assert Flatten(sites[..i]) + deployments[..0] == Flatten(sites[..i]);
      for j := 0 to |deployments|
        invariant Tallies(daily, Flatten(sites[..i]) + deployments[..j])
      {
        RecordTallies(daily, Flatten(sites[..i]) + deployments[..j], deployments[j]);
        daily := Record(daily, deployments[j]);
        assert Flatten(sites[..i]) + deployments[..j] + [deployments[j]] == Flatten(sites[..i]) + deployments[..j + 1];
      }
      assert deployments[..|deployments|] == deployments && sites[..i + 1][..i] == sites[..i];
    }
    assert sites[..|sites|] == sites;
  }

  /** The points of the first `n` of the sorted days. */
  ghost predicate PointsUpTo(ds: seq<Deployment>, days: seq<int>, n: nat, trend: seq<Point>)
    requires n <= |days|
  {
    && |trend| == n
    && forall i :: 0 <= i < n ==> trend[i] == Point(days[i], SizeUpTo(ds, days[i]), CountOn(ds, days[i]))
  }

  lemma NextDay(ds: seq<Deployment>, days: seq<int>, n: nat)
    requires Increasing(days) && n < |days|
    requires forall d :: d in ds ==> d.day in days
    ensures SizeUpTo(ds, days[n]) == (if n == 0 then 0 else SizeUpTo(ds, days[n - 1])) + SizeOn(ds, days[n])
  {
  }

  lemma PointsAreTrend(ds: seq<Deployment>, days: seq<int>, trend: seq<Point>)
    requires Increasing(days) && PointsUpTo(ds, days, |days|, trend)
    requires forall d :: d in ds ==> d.day in days
    requires forall i :: 0 <= i < |days| ==> CountOn(ds, days[i]) > 0
    ensures IsTrend(ds, trend)
  {
  }

  method StorageUsageTrend(sites: seq<seq<Deployment>>) returns (trend: seq<Point>)
    ensures IsTrend(Flatten(sites), trend)
  {
    ghost var ds := Flatten(sites);
    var daily := TallyByDay(sites);
    var days := Sort(daily.order);
    SortOrders(daily.order);
    forall d | d in ds
      ensures d.day in days
    {
      CountedDay(ds, d.day);
    }
    forall i | 0 <= i < |days|
      ensures CountOn(ds, days[i]) > 0 && days[i] in daily.at
    {
      assert days[i] in daily.order;
    }
    trend := [];
    var cumulativeSize := 0;
    for i := 0 to |days|
      invariant PointsUpTo(ds, days, i, trend)
      invariant cumulativeSize == if i == 0 then 0 else SizeUpTo(ds, days[i - 1])
    {
      NextDay(ds, days, i);
      var data := daily.at[days[i]];
      cumulativeSize := cumulativeSize + data.totalSize;
      trend := trend + [Point(days[i], cumulativeSize, data.deploymentCount)];
    }
    PointsAreTrend(ds, days, trend);
  }
}
