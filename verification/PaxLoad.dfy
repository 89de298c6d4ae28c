/** The daily_pax_load view: activities spread over their days, summed per entity, asset
    and day.  A date is a day number. */
module PaxLoad {
  import opened Wrappers

  datatype Activity = Activity(
    entity: nat, asset: nat, start: Option<int>, end: Option<int>,
    quota: int, actual: Option<int>, status: string, active: bool)

  datatype Key = Key(entity: nat, asset: nat, day: int)

  /** A row before grouping. */
  datatype Item = Item(key: Key, quota: int, actual: Option<int>)

  /** The two SUMs of a group; SUM skips nulls and is null over nulls alone. */
  datatype Load = Load(quota: int, actual: Option<int>)

  type View = map<Key, Load>

  // ----- the query -----

  /** The WHERE clause. */
  predicate Eligible(a: Activity) {
    a.status in {"approved", "in_progress", "submitted"} && a.active
  }

  /** generate_series(start, end, '1 day'): empty for a missing or reversed range. */
  function Series(start: Option<int>, end: Option<int>): seq<int> {
    if start.None? || end.None? then [] else Range(start.value, end.value)
  }

  function Range(from: int, to: int): seq<int>
    decreases to - from
  {
    if from > to then [] else [from] + Range(from + 1, to)
  }

  /** One activity joined with its days. */
  function Spread(a: Activity, days: seq<int>): seq<Item> {
    if days == [] then []
    else Spread(a, days[..|days| - 1]) + [Item(Key(a.entity, a.asset, days[|days| - 1]), a.quota, a.actual)]
  }

  /** The rows one activity adds. */
  function Added(a: Activity): seq<Item> {
    if Eligible(a) then Spread(a, Series(a.start, a.end)) else []
  }

  /** FROM planner_activities CROSS JOIN LATERAL generate_series WHERE .. */
  function Joined(acts: seq<Activity>): seq<Item> {
    if acts == [] then []
    else
      Joined(acts[..|acts| - 1]) + Added(acts[|acts| - 1])
  }

  function AddOptional(a: Option<int>, b: Option<int>): Option<int> {
    if a.None? then b else if b.None? then a else Some(a.value + b.value)
  }

  /** GROUP BY the key with the two SUMs. */
  function Grouped(items: seq<Item>): View {
    if items == [] then map[]
    else
      var v, last := Grouped(items[..|items| - 1]), items[|items| - 1];
      if last.key in v
      then v[last.key := Load(v[last.key].quota + last.quota, AddOptional(v[last.key].actual, last.actual))]
      else v[last.key := Load(last.quota, last.actual)]
  }

  function DailyPaxLoad(acts: seq<Activity>): View {
    Grouped(Joined(acts))
  }

  // ----- what a row should hold -----

  predicate Covers(a: Activity, k: Key) {
    && Eligible(a) && a.entity == k.entity && a.asset == k.asset
    && a.start.Some? && a.end.Some? && a.start.value <= k.day <= a.end.value
  }

  predicate Covered(acts: seq<Activity>, k: Key) {
    exists i :: 0 <= i < |acts| && Covers(acts[i], k)
  }

  function QuotaOn(acts: seq<Activity>, k: Key): int {
    if acts == [] then 0
    else QuotaOn(acts[..|acts| - 1], k) + if Covers(acts[|acts| - 1], k) then acts[|acts| - 1].quota else 0
  }

  function ActualOn(acts: seq<Activity>, k: Key): Option<int> {
    if acts == [] then None
    else
      var last := acts[|acts| - 1];
      AddOptional(ActualOn(acts[..|acts| - 1], k), if Covers(last, k) then last.actual else None)
  }

  /** Inclusive duration; zero for missing or reversed dates. */
  function Duration(a: Activity): nat {
    if a.start.Some? && a.end.Some? && a.start.value <= a.end.value then a.end.value - a.start.value + 1 else 0
  }

  function PaxDays(acts: seq<Activity>): int {
    if acts == [] then 0
    else
      var last := acts[|acts| - 1];
      PaxDays(acts[..|acts| - 1]) + if Eligible(last) then last.quota * Duration(last) else 0
  }

  // ----- sums over ungrouped rows -----

  predicate Present(items: seq<Item>, k: Key) {
    exists i :: 0 <= i < |items| && items[i].key == k
  }

  function QuotaOf(items: seq<Item>, k: Key): int {
    if items == [] then 0
    else QuotaOf(items[..|items| - 1], k) + if items[|items| - 1].key == k then items[|items| - 1].quota else 0
  }

  function ActualOf(items: seq<Item>, k: Key): Option<int> {
    if items == [] then None
    else
      var last := items[|items| - 1];
      AddOptional(ActualOf(items[..|items| - 1], k), if last.key == k then last.actual else None)
  }

  function QuotaTotal(items: seq<Item>): int {
    if items == [] then 0 else QuotaTotal(items[..|items| - 1]) + items[|items| - 1].quota
  }

  lemma {:induction false} GroupedRow(items: seq<Item>, k: Key)
    ensures k in Grouped(items) <==> Present(items, k)
    ensures k in Grouped(items) ==> Grouped(items)[k] == Load(QuotaOf(items, k), ActualOf(items, k))
    ensures k !in Grouped(items) ==> QuotaOf(items, k) == 0 && ActualOf(items, k) == None
    decreases |items|
  {
    if items != [] {
      var front := items[..|items| - 1];
      GroupedRow(front, k);
      if Present(front, k) {
        var i :| 0 <= i < |front| && front[i].key == k;
        assert items[i].key == k;
      }
      if Present(items, k) && items[|items| - 1].key != k {
        var i :| 0 <= i < |items| && items[i].key == k;
        assert front[i].key == k;
      }
    }
  }

  lemma {:induction false} SumsAppend(a: seq<Item>, b: seq<Item>, k: Key)
    ensures QuotaOf(a + b, k) == QuotaOf(a, k) + QuotaOf(b, k)
    ensures ActualOf(a + b, k) == AddOptional(ActualOf(a, k), ActualOf(b, k))
    ensures QuotaTotal(a + b) == QuotaTotal(a) + QuotaTotal(b)
    decreases |b|
  {
    if b == [] {
      assert a + b == a;
    } else {
      SumsAppend(a, b[..|b| - 1], k);
      assert (a + b)[..|a + b| - 1] == a + b[..|b| - 1];
    }
  }

  predicate DistinctDays(days: seq<int>) {
    forall i, j :: 0 <= i < j < |days| ==> days[i] != days[j]
  }

  lemma {:induction false} RangeDays(from: int, to: int)
    ensures |Range(from, to)| == if from <= to then to - from + 1 else 0
    ensures DistinctDays(Range(from, to))
    ensures forall d :: (d in Range(from, to) <==> from <= d <= to)
    decreases if from <= to then to - from + 1 else 0
  {
    if from <= to {
      RangeDays(from + 1, to);
      var rest := Range(from + 1, to);
      assert Range(from, to) == [from] + rest && from !in rest;
      assert forall j :: 0 <= j < |rest| ==> rest[j] in rest;
    }
  }

  /** An activity contributes once to each of its days, and its quota times their number
      in all. */
  lemma {:induction false} SpreadSums(a: Activity, days: seq<int>, k: Key)
    requires DistinctDays(days)
    ensures var hit := a.entity == k.entity && a.asset == k.asset && k.day in days;
            && (Present(Spread(a, days), k) <==> hit)
            && QuotaOf(Spread(a, days), k) == (if hit then a.quota else 0)
            && ActualOf(Spread(a, days), k) == (if hit then a.actual else None)
    decreases |days|
  {
    if days != [] {
      var front, last := days[..|days| - 1], days[|days| - 1];
      SpreadSums(a, front, k);
      assert days == front + [last];
      assert last !in front;
      var item := Item(Key(a.entity, a.asset, last), a.quota, a.actual);
      assert Spread(a, days)[..|Spread(a, days)| - 1] == Spread(a, front);
      PresentAppend(Spread(a, front), [item], k);
      assert Present([item], k) <==> item.key == k by {
        assert [item][0] == item;
      }
    }
  }

  lemma {:induction false} SpreadTotal(a: Activity, days: seq<int>)
    ensures QuotaTotal(Spread(a, days)) == a.quota * |days|
    decreases |days|
  {
    if days != [] {
      var front := days[..|days| - 1];
      SpreadTotal(a, front);
      assert Spread(a, days)[..|Spread(a, days)| - 1] == Spread(a, front);
      assert a.quota * |days| == a.quota * (|front| + 1) == a.quota * |front| + a.quota;
    }
  }

  lemma PresentAppend(a: seq<Item>, b: seq<Item>, k: Key)
    ensures Present(a + b, k) <==> Present(a, k) || Present(b, k)
  {
    if Present(a, k) {
      var i :| 0 <= i < |a| && a[i].key == k;
      assert (a + b)[i].key == k;
    }
    if Present(b, k) {
      var i :| 0 <= i < |b| && b[i].key == k;
      assert (a + b)[|a| + i].key == k;
    }
  }

  lemma CoveredStep(acts: seq<Activity>, k: Key)
    requires acts != []
    ensures Covered(acts, k) <==> Covered(acts[..|acts| - 1], k) || Covers(acts[|acts| - 1], k)
  {
    assert forall i :: 0 <= i < |acts| - 1 ==> acts[..|acts| - 1][i] == acts[i];
  }

  lemma AddedSums(a: Activity, k: Key)
    ensures Present(Added(a), k) <==> Covers(a, k)
    ensures QuotaOf(Added(a), k) == if Covers(a, k) then a.quota else 0
    ensures ActualOf(Added(a), k) == if Covers(a, k) then a.actual else None
  {
    if a.start.Some? && a.end.Some? {
      RangeDays(a.start.value, a.end.value);
    }
    SpreadSums(a, Series(a.start, a.end), k);
  }

  lemma AddedTotal(a: Activity)
    ensures QuotaTotal(Added(a)) == if Eligible(a) then a.quota * Duration(a) else 0
  {
    if a.start.Some? && a.end.Some? {
      RangeDays(a.start.value, a.end.value);
    }
    SpreadTotal(a, Series(a.start, a.end));
  }

  lemma JoinedStep(acts: seq<Activity>, k: Key)
    requires acts != []
    ensures
      var (before, added) := (Joined(acts[..|acts| - 1]), Added(acts[|acts| - 1]));
      && (Present(Joined(acts), k) <==> Present(before, k) || Present(added, k))
      && QuotaOf(Joined(acts), k) == QuotaOf(before, k) + QuotaOf(added, k)
      && ActualOf(Joined(acts), k) == AddOptional(ActualOf(before, k), ActualOf(added, k))
  {
    SumsAppend(Joined(acts[..|acts| - 1]), Added(acts[|acts| - 1]), k);
    PresentAppend(Joined(acts[..|acts| - 1]), Added(acts[|acts| - 1]), k);
  }

  lemma {:induction false} JoinedKeys(acts: seq<Activity>, k: Key)
    ensures Present(Joined(acts), k) <==> Covered(acts, k)
    decreases |acts|
  {
    if acts != [] {
      JoinedKeys(acts[..|acts| - 1], k);
      CoveredStep(acts, k);
      AddedSums(acts[|acts| - 1], k);
      JoinedStep(acts, k);
    }
  }

  lemma {:induction false} JoinedQuotas(acts: seq<Activity>, k: Key)
    ensures QuotaOf(Joined(acts), k) == QuotaOn(acts, k)
    decreases |acts|
  {
    if acts != [] {
      JoinedQuotas(acts[..|acts| - 1], k);
      AddedSums(acts[|acts| - 1], k);
      JoinedStep(acts, k);
    }
  }

  lemma {:induction false} JoinedActuals(acts: seq<Activity>, k: Key)
    ensures ActualOf(Joined(acts), k) == ActualOn(acts, k)
    decreases |acts|
  {
    if acts != [] {
      JoinedActuals(acts[..|acts| - 1], k);
      AddedSums(acts[|acts| - 1], k);
      JoinedStep(acts, k);
    }
  }

  lemma {:induction false} JoinedTotal(acts: seq<Activity>)
    ensures QuotaTotal(Joined(acts)) == PaxDays(acts)
    decreases |acts|
  {
    if acts != [] {
      var front, last := acts[..|acts| - 1], acts[|acts| - 1];
      JoinedTotal(front);
      AddedTotal(last);
      SumsAppend(Joined(front), Added(last), Key(0, 0, 0));
    }
  }

  /** There is a row for a key exactly when an eligible activity covers it; it holds the
      sum of their quotas and of their non-null actuals. */
  lemma RowsAreSums(acts: seq<Activity>, k: Key)
    ensures k in DailyPaxLoad(acts) <==> Covered(acts, k)
    ensures k in DailyPaxLoad(acts) ==> DailyPaxLoad(acts)[k] == Load(QuotaOn(acts, k), ActualOn(acts, k))
  {
    GroupedRow(Joined(acts), k);
    JoinedKeys(acts, k);
    JoinedQuotas(acts, k);
    JoinedActuals(acts, k);
  }

  // ----- what determines the view -----

  lemma {:induction false} SumsOfBoth(a: seq<Activity>, b: seq<Activity>, k: Key)
    ensures Covered(a + b, k) <==> Covered(a, k) || Covered(b, k)
    ensures QuotaOn(a + b, k) == QuotaOn(a, k) + QuotaOn(b, k)
    ensures ActualOn(a + b, k) == AddOptional(ActualOn(a, k), ActualOn(b, k))
    decreases |b|
  {
    if b == [] {
      assert a + b == a;
    } else {
      SumsOfBoth(a, b[..|b| - 1], k);
      CoveredStep(b, k);
      CoveredStep(a + b, k);
      assert (a + b)[..|a + b| - 1] == a + b[..|b| - 1];
    }
  }

  /** No activities, no rows. */
  lemma NoActivities()
    ensures DailyPaxLoad([]) == map[]
  {
  }

  /** One activity's view: its quota and actual on each day from its start to its end, if
      its status counts and it is active; otherwise nothing. */
  lemma OneActivity(a: Activity, k: Key)
    ensures k in DailyPaxLoad([a]) <==>
            && a.active && (a.status == "approved" || a.status == "in_progress" || a.status == "submitted")
            && a.start.Some? && a.end.Some? && a.start.value <= k.day <= a.end.value
            && k.entity == a.entity && k.asset == a.asset
    ensures k in DailyPaxLoad([a]) ==> DailyPaxLoad([a])[k] == Load(a.quota, a.actual)
  {
    RowsAreSums([a], k);
    assert [a][..0] == [];
    CoveredStep([a], k);
    assert !Covered([], k);
  }

  /** Two lists of activities together: a row of either is a row; where both have one the
      quotas add up, and so do the actuals, a null counting for nothing. */
  lemma ViewsAddUp(a: seq<Activity>, b: seq<Activity>, k: Key)
    ensures
      var (v, w, both) := (DailyPaxLoad(a), DailyPaxLoad(b), DailyPaxLoad(a + b));
      && (k in both <==> k in v || k in w)
      && (k in v && k !in w ==> both[k] == v[k])
      && (k in w && k !in v ==> both[k] == w[k])
      && (k in v && k in w ==>
            && both[k].quota == v[k].quota + w[k].quota
            && (v[k].actual.None? ==> both[k].actual == w[k].actual)
            && (w[k].actual.None? ==> both[k].actual == v[k].actual)
            && (v[k].actual.Some? && w[k].actual.Some? ==>
                  both[k].actual == Some(v[k].actual.value + w[k].actual.value)))
  {
    RowsAreSums(a, k);
    RowsAreSums(b, k);
    RowsAreSums(a + b, k);
    SumsOfBoth(a, b, k);
    NotCovered(a, k);
    NotCovered(b, k);
  }

  lemma NotCovered(acts: seq<Activity>, k: Key)
    ensures !Covered(acts, k) ==> QuotaOn(acts, k) == 0 && ActualOn(acts, k) == None
  {
    GroupedRow(Joined(acts), k);
    JoinedKeys(acts, k);
    JoinedQuotas(acts, k);
    JoinedActuals(acts, k);
  }

  // ----- the total -----

  ghost function Total(v: View): int
    decreases |v|
  {
    if v == map[] then 0
    else
      var k :| k in v;
      v[k].quota + Total(v - {k})
  }

  /** The total does not depend on the order rows are taken in. */
  lemma {:induction false} TotalByKey(v: View, k: Key)
    requires k in v
    ensures Total(v) == v[k].quota + Total(v - {k})
    decreases |v|
  {
    var c :| c in v && Total(v) == v[c].quota + Total(v - {c});
    if c != k {
      TotalByKey(v - {c}, k);
      TotalByKey(v - {k}, c);
      assert v - {c} - {k} == v - {k} - {c};
    }
  }

  lemma TotalAfterUpdate(v: View, k: Key, l: Load)
    ensures Total(v[k := l]) == Total(v) + l.quota - if k in v then v[k].quota else 0
  {
    var w := v[k := l];
    TotalByKey(w, k);
    assert w - {k} == v - {k};
    if k in v {
      TotalByKey(v, k);
    } else {
      assert v - {k} == v;
    }
  }

  lemma {:induction false} GroupingConserves(items: seq<Item>)
    ensures Total(Grouped(items)) == QuotaTotal(items)
    decreases |items|
  {
    if items != [] {
      var front, last := items[..|items| - 1], items[|items| - 1];
      GroupingConserves(front);
      var v := Grouped(front);
      TotalAfterUpdate(v, last.key, Grouped(items)[last.key]);
    }
  }

  /** Pax-day conservation: the total over all rows of the view is the sum over eligible
      activities of quota times inclusive duration. */
  lemma PaxDaysAreConserved(acts: seq<Activity>)
    ensures Total(DailyPaxLoad(acts)) == PaxDays(acts)
  {
    GroupingConserves(Joined(acts));
    JoinedTotal(acts);
  }
}
