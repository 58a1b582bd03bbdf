/**
 * The figures of the `update_dashboard` callback: the three distinct-name
 * counters and the per-stage distinct-name counts behind the two charts, cut to
 * the ten largest.
 */
module Dashboard {
  import opened Values
  import opened Seqs
  import opened Unique
  import opened Cases

  /** The `Housemaid Name` column. */
  function Names(rows: seq<Row>): (names: seq<Option<string>>)
    ensures |names| == |rows|
    ensures forall i :: 0 <= i < |rows| ==> names[i] == rows[i].housemaidName
  {
    seq(|rows|, i requires 0 <= i < |rows| => rows[i].housemaidName)
  }

  /** The `Current Stage` column. */
  function Stages(rows: seq<Row>): (stages: seq<Option<string>>)
    ensures |stages| == |rows|
    ensures forall i :: 0 <= i < |rows| ==> stages[i] == rows[i].currentStage
  {
    seq(|rows|, i requires 0 <= i < |rows| => rows[i].currentStage)
  }

  /** The present values of a column, in order. */
  function Present(column: seq<Option<string>>): (r: seq<string>)
    ensures forall v :: v in r <==> Some(v) in column
  {
    if |column| == 0 then []
    else
      assert column == [column[0]] + column[1..];
      (if column[0].Some? then [column[0].value] else []) + Present(column[1..])
  }

  lemma {:induction false} PresentLength(column: seq<Option<string>>)
    ensures |Present(column)| <= |column|
  {
    if |column| > 0 {
      PresentLength(column[1..]);
    }
  }

  /** `series.drop_duplicates().shape[0]`: a missing name is one more value. */
  function DistinctCount(column: seq<Option<string>>): nat
  {
    |ValueSet(column)|
  }

  /** `series.nunique()`: missing names are not counted. */
  function NUnique(column: seq<Option<string>>): nat
  {
    |ValueSet(Present(column))|
  }

  function NoteMask(note: string): Row -> bool
  {
    (r: Row) => r.clientNote == Some(note)
  }

  function StageMask(stage: string): Row -> bool
  {
    (r: Row) => r.currentStage == Some(stage)
  }

  /** `df[mask]['Housemaid Name'].drop_duplicates().shape[0]`. */
  function DistinctNamesWhere(rows: seq<Row>, mask: Row -> bool): nat
  {
    DistinctCount(Names(Keep(rows, mask)))
  }

  /** A counter never exceeds the number of matching rows, and is zero exactly when no row matches. */
  lemma DistinctNamesWhereSpec(rows: seq<Row>, mask: Row -> bool)
    ensures DistinctNamesWhere(rows, mask) <= |Keep(rows, mask)| <= |rows|
    ensures DistinctNamesWhere(rows, mask) == 0 <==> forall r :: r in rows ==> !mask(r)
  {
    var kept := Keep(rows, mask);
    ValuesBound(Names(kept));
    forall r ensures r in kept <==> r in rows && mask(r) {
      KeepMembers(rows, mask, r);
    }
    if |kept| > 0 {
      assert kept[0] in kept;
    }
  }

  /** Rows of a late case that share a name count once. */
  lemma RepeatedNameCountsOnce(rows: seq<Row>, mask: Row -> bool, r: Row)
    requires mask(r) && exists x :: x in rows && mask(x) && x.housemaidName == r.housemaidName
    ensures DistinctNamesWhere(rows + [r], mask) == DistinctNamesWhere(rows, mask)
  {
    KeepAppend(rows, [r], mask);
    var x :| x in rows && mask(x) && x.housemaidName == r.housemaidName;
    KeepMembers(rows, mask, x);
    var kept := Keep(rows, mask);
    var k :| 0 <= k < |kept| && kept[k] == x;
    assert Names(kept)[k] == r.housemaidName;
    assert Names(kept + [r]) == Names(kept) + [r.housemaidName];
    assert Keep([r], mask) == [r];
    assert ValueSet(Names(kept + [r])) == ValueSet(Names(kept));
  }

  lemma {:induction false} KeepAppend<T>(a: seq<T>, b: seq<T>, p: T -> bool)
    ensures Keep(a + b, p) == Keep(a, p) + Keep(b, p)
  {
    if |a| > 0 {
      assert (a + b)[1..] == a[1..] + b;
      KeepAppend(a[1..], b, p);
    } else {
      assert a + b == b;
    }
  }

  /** The number of distinct names of a stage, as `groupby('Current Stage')['Housemaid Name'].nunique()`
      gives it for one group. */
  datatype StageCount = StageCount(stage: string, count: nat)

  /** The group of one stage: the distinct present names of the rows at that stage. */
  function GroupOf(rows: seq<Row>, stage: string): StageCount
  {
    StageCount(stage, NUnique(Names(Keep(rows, StageMask(stage)))))
  }

  /** One group per present stage, in ascending stage order (the order `groupby` gives). */
  function StageCounts(rows: seq<Row>): (groups: seq<StageCount>)
    ensures |groups| == |SortedUnique(Stages(rows))|
    ensures forall j :: 0 <= j < |groups| ==> groups[j] == GroupOf(rows, SortedUnique(Stages(rows))[j])
  {
    var stages := SortedUnique(Stages(rows));
    seq(|stages|, i requires 0 <= i < |stages| => GroupOf(rows, stages[i]))
  }

  /** There is a group for a stage exactly when some row is at that stage. */
  lemma StageCountsCover(rows: seq<Row>, stage: string)
    ensures (exists j :: 0 <= j < |StageCounts(rows)| && StageCounts(rows)[j].stage == stage) <==>
            exists r :: r in rows && r.currentStage == Some(stage)
  {
    var stages := SortedUnique(Stages(rows));
    var groups := StageCounts(rows);
    if exists r :: r in rows && r.currentStage == Some(stage) {
      var r :| r in rows && r.currentStage == Some(stage);
      var k :| 0 <= k < |rows| && rows[k] == r;
      assert Stages(rows)[k] == Some(stage);
      var j :| 0 <= j < |stages| && stages[j] == stage;
      assert groups[j].stage == stage;
    }
    if exists j :: 0 <= j < |groups| && groups[j].stage == stage {
      var j :| 0 <= j < |groups| && groups[j].stage == stage;
      assert stages[j] == stage;
      assert Some(stage) in Stages(rows);
      var k :| 0 <= k < |rows| && Stages(rows)[k] == Some(stage);
      assert rows[k] in rows;
    }
  }

  /** The groups come in strictly ascending stage order, so no stage has two groups. */
  lemma StageCountsSorted(rows: seq<Row>)
    ensures forall a, b :: 0 <= a < b < |StageCounts(rows)| ==>
      Text.Less(StageCounts(rows)[a].stage, StageCounts(rows)[b].stage)
  {
  }

  /** A group's count never exceeds the number of rows at its stage. */
  lemma GroupBound(rows: seq<Row>, stage: string)
    ensures GroupOf(rows, stage).count <= |Keep(rows, StageMask(stage))|
  {
    var kept := Keep(rows, StageMask(stage));
    ValuesBound(Present(Names(kept)));
    PresentLength(Names(kept));
  }

  predicate DescendingByCount(s: seq<StageCount>)
  {
    forall i, j :: 0 <= i < j < |s| ==> s[i].count >= s[j].count
  }

  /** Puts `g` after every group with at least its count. */
  function InsertByCount(g: StageCount, s: seq<StageCount>): (r: seq<StageCount>)
    requires DescendingByCount(s)
    ensures DescendingByCount(r)
    ensures multiset(r) == multiset(s) + multiset{g}
  {
    if |s| == 0 then [g]
    else if s[0].count >= g.count then
      var t := InsertByCount(g, s[1..]);
      InsertAfterHead(g, s, t);
      [s[0]] + t
    else
      InsertAtHead(g, s);
      [g] + s
  }

  /** The step of `InsertByCount` that keeps the first group in front. */
  lemma InsertAfterHead(g: StageCount, s: seq<StageCount>, t: seq<StageCount>)
    requires |s| > 0 && DescendingByCount(s) && s[0].count >= g.count
    requires DescendingByCount(t) && multiset(t) == multiset(s[1..]) + multiset{g}
    ensures DescendingByCount([s[0]] + t)
    ensures multiset([s[0]] + t) == multiset(s) + multiset{g}
  {
    assert s == [s[0]] + s[1..];
    HeadIsMax(s);
    forall y | y in t ensures y.count <= s[0].count {
      assert y in multiset(t);
    }
    ConsDescending(s[0], t);
  }

  /** The step of `InsertByCount` that puts `g` in front. */
  lemma InsertAtHead(g: StageCount, s: seq<StageCount>)
    requires DescendingByCount(s) && (|s| == 0 || s[0].count < g.count)
    ensures DescendingByCount([g] + s)
  {
    if |s| > 0 {
      assert s == [s[0]] + s[1..];
      HeadIsMax(s);
    }
    ConsDescending(g, s);
  }

  /** Every later group of a descending list has at most the first group's count. */
  lemma HeadIsMax(s: seq<StageCount>)
    requires |s| > 0 && DescendingByCount(s)
    ensures forall y :: y in s ==> y.count <= s[0].count
  {
    forall y | y in s ensures y.count <= s[0].count {
      var k :| 0 <= k < |s| && s[k] == y;
    }
  }

  /** A group with at least every count of a descending list can go in front of it. */
  lemma ConsDescending(x: StageCount, t: seq<StageCount>)
    requires DescendingByCount(t)
    requires forall y :: y in t ==> y.count <= x.count
    ensures DescendingByCount([x] + t)
  {
    var r := [x] + t;
    forall i, j | 0 <= i < j < |r| ensures r[i].count >= r[j].count {
      assert r[j] == t[j - 1];
      if i > 0 {
        assert r[i] == t[i - 1];
      } else {
        assert t[j - 1] in t;
      }
    }
  }

  /** `sort_values(by='Count', ascending=False)`, ties kept in their input order. */
  function SortByCount(s: seq<StageCount>): (r: seq<StageCount>)
    ensures DescendingByCount(r)
    ensures multiset(r) == multiset(s)
  {
    if |s| == 0 then []
    else
      assert s == s[..|s| - 1] + [s[|s| - 1]];
      InsertByCount(s[|s| - 1], SortByCount(s[..|s| - 1]))
  }

  const TopN: nat := 10

  /** `.head(10)` of the sorted groups. */
  function TopStages(groups: seq<StageCount>): seq<StageCount>
  {
    var sorted := SortByCount(groups);
    sorted[..if |sorted| < TopN then |sorted| else TopN]
  }

  /** The top-ten cut: at most ten groups, largest first, all of them groups of the input, and no group
      left out has a larger count than any group kept. */
  lemma TopStagesSpec(groups: seq<StageCount>)
    ensures |TopStages(groups)| == if |groups| < 10 then |groups| else 10
    ensures DescendingByCount(TopStages(groups))
    ensures multiset(TopStages(groups)) <= multiset(groups)
    ensures forall g, t :: g in multiset(groups) - multiset(TopStages(groups)) && t in TopStages(groups) ==>
      g.count <= t.count
  {
    var sorted := SortByCount(groups);
    var m := if |sorted| < TopN then |sorted| else TopN;
    var top := sorted[..m];
    assert TopStages(groups) == top;
    assert |sorted| == |groups| by {
      assert |multiset(sorted)| == |multiset(groups)|;
    }
    CutDescending(sorted, m);
    assert multiset(groups) - multiset(top) == multiset(sorted[m..]);
    forall g, t | g in multiset(groups) - multiset(top) && t in top ensures g.count <= t.count {
      assert g in sorted[m..];
    }
  }

  /** Cutting a descending list after `m` groups: both parts keep their groups, the head stays descending,
      and nothing in the tail outranks anything in the head. */
  lemma CutDescending(sorted: seq<StageCount>, m: nat)
    requires DescendingByCount(sorted) && m <= |sorted|
    ensures DescendingByCount(sorted[..m])
    ensures multiset(sorted) == multiset(sorted[..m]) + multiset(sorted[m..])
    ensures forall g, t :: g in sorted[m..] && t in sorted[..m] ==> g.count <= t.count
  {
    assert sorted == sorted[..m] + sorted[m..];
    forall g, t | g in sorted[m..] && t in sorted[..m] ensures g.count <= t.count {
      var a :| 0 <= a < |sorted[m..]| && sorted[m..][a] == g;
      var b :| 0 <= b < m && sorted[..m][b] == t;
      assert sorted[m + a] == g && sorted[b] == t;
    }
  }

  /** The three counters and the two top-ten tables. */
  datatype Metrics = Metrics(
    superAngry: nat, prioritizeVisa: nat, totalLate: nat,
    lateByStage: seq<StageCount>, byStage: seq<StageCount>)

  const NoMetrics := Metrics(0, 0, 0, [], [])

  /** The reset button wins when it has been clicked more often than Apply. */
  function EffectiveFilters(applyClicks: nat, resetClicks: nat, filters: Filters): Filters
  {
    if resetClicks > 0 && resetClicks > applyClicks then NoFilters else filters
  }

  /** `update_dashboard` without the figures' styling: counts of distinct names over the filtered rows for
      the two client notes and for the late cases, and the top ten stages by distinct names, over the late
      cases and over all filtered rows. No upload, or an empty one, shows zeros. */
  function DashboardMetrics(upload: Option<seq<Row>>, applyClicks: nat, resetClicks: nat, filters: Filters,
                            thresholds: seq<real>, stageIds: seq<string>): (m: Metrics)
    ensures upload.None? || upload == Some([]) ==> m == NoMetrics
    ensures upload.Some? ==>
      && m.prioritizeVisa <= |upload.value| && m.superAngry <= |upload.value| && m.totalLate <= |upload.value|
      && |m.lateByStage| <= 10 && |m.byStage| <= 10
      && DescendingByCount(m.lateByStage) && DescendingByCount(m.byStage)
  {
    if upload.None? || |upload.value| == 0 then NoMetrics
    else
      var filtered := ApplyFilters(upload.value, EffectiveFilters(applyClicks, resetClicks, filters));
      ApplyFiltersIsKeep(upload.value, EffectiveFilters(applyClicks, resetClicks, filters));
      var th := ThresholdDict(thresholds, stageIds);
      var late := LateCases(filtered, th);
      DistinctNamesWhereSpec(filtered, NoteMask("SUPER_ANGRY_CLIENT"));
      DistinctNamesWhereSpec(filtered, NoteMask("PRIORITIZE_VISA"));
      DistinctNamesWhereSpec(filtered, LateMask(th));
      TopStagesSpec(StageCounts(late));
      assert DescendingByCount(TopStages(StageCounts(late)));
      TopStagesSpec(StageCounts(filtered));
      Metrics(
        DistinctNamesWhere(filtered, NoteMask("SUPER_ANGRY_CLIENT")),
        DistinctNamesWhere(filtered, NoteMask("PRIORITIZE_VISA")),
        DistinctNamesWhere(filtered, LateMask(th)),
        TopStages(StageCounts(late)),
        TopStages(StageCounts(filtered)))
  }
}
