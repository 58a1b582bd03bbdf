/**
 * Row records of the cleaned table and the selection pipeline shared by the
 * dashboard, the export and the distribution callbacks: the four drop-down
 * filters, the per-stage threshold dictionary and the `Late` flag.
 */
module Cases {
  import opened Values
  import opened Seqs

  /** The columns of a case row that the logic reads; other columns ride along unchanged. */
  datatype Row = Row(
    housemaidName: Option<string>,
    currentStage: Option<string>,
    timeInStage: Option<real>,
    caseType: Option<string>,
    nationality: Option<string>,
    clientNote: Option<string>)

  /** The values of the four multi-select filters; an unset drop-down (`None`) and an empty one are both `[]`. */
  datatype Filters = Filters(stages: seq<string>, types: seq<string>, nationalities: seq<string>, clientNotes: seq<string>)

  const NoFilters := Filters([], [], [], [])

  /** The threshold, in hours, of a stage that has no threshold input. */
  const DefaultThreshold: real := 24.0

  /** `column.isin(allowed)`: a missing cell is never in the list. */
  predicate IsIn(v: Option<string>, allowed: seq<string>)
  {
    v.Some? && v.value in allowed
  }

  /** What the filter on one column lets through: everything when its list is empty. */
  predicate Admits(allowed: seq<string>, v: Option<string>)
  {
    |allowed| == 0 || IsIn(v, allowed)
  }

  function ColumnMask(field: Row -> Option<string>, allowed: seq<string>): Row -> bool
  {
    (r: Row) => IsIn(field(r), allowed)
  }

  function StageOf(r: Row): Option<string> { r.currentStage }
  function TypeOf(r: Row): Option<string> { r.caseType }
  function NationalityOf(r: Row): Option<string> { r.nationality }
  function NoteOf(r: Row): Option<string> { r.clientNote }

  /** `if allowed: df = df[df[column].isin(allowed)]`. */
  function FilterColumn(rows: seq<Row>, field: Row -> Option<string>, allowed: seq<string>): seq<Row>
  {
    if |allowed| == 0 then rows else Keep(rows, ColumnMask(field, allowed))
  }

  /** The four filters, applied in the order of the source. */
  function ApplyFilters(rows: seq<Row>, f: Filters): seq<Row>
  {
    var byStage := FilterColumn(rows, StageOf, f.stages);
    var byType := FilterColumn(byStage, TypeOf, f.types);
    var byNationality := FilterColumn(byType, NationalityOf, f.nationalities);
    FilterColumn(byNationality, NoteOf, f.clientNotes)
  }

  /** A row passes every non-empty filter. */
  predicate MatchesFilters(f: Filters, r: Row)
  {
    && Admits(f.stages, r.currentStage)
    && Admits(f.types, r.caseType)
    && Admits(f.nationalities, r.nationality)
    && Admits(f.clientNotes, r.clientNote)
  }

  function FiltersMask(f: Filters): Row -> bool
  {
    (r: Row) => MatchesFilters(f, r)
  }

  function AdmitMask(field: Row -> Option<string>, allowed: seq<string>): Row -> bool
  {
    (r: Row) => Admits(allowed, field(r))
  }

  lemma FilterColumnIsKeep(rows: seq<Row>, field: Row -> Option<string>, allowed: seq<string>)
    ensures FilterColumn(rows, field, allowed) == Keep(rows, AdmitMask(field, allowed))
  {
    if |allowed| == 0 {
      KeepAll(rows, AdmitMask(field, allowed));
    } else {
      KeepSameMask(rows, ColumnMask(field, allowed), AdmitMask(field, allowed));
    }
  }

  lemma {:induction false} KeepSameMask<T>(s: seq<T>, p: T -> bool, q: T -> bool)
    requires forall x :: p(x) == q(x)
    ensures Keep(s, p) == Keep(s, q)
  {
    if |s| > 0 {
      KeepSameMask(s[1..], p, q);
    }
  }

  /** The conjunctive filters are one selection by `MatchesFilters`: the result is the order-preserving
      subsequence of the rows that pass every non-empty filter, with their multiplicities. */
  lemma ApplyFiltersIsKeep(rows: seq<Row>, f: Filters)
    ensures ApplyFilters(rows, f) == Keep(rows, FiltersMask(f))
  {
    var p1 := AdmitMask(StageOf, f.stages);
    var p2 := AdmitMask(TypeOf, f.types);
    var p3 := AdmitMask(NationalityOf, f.nationalities);
    var p4 := AdmitMask(NoteOf, f.clientNotes);
    var q12: Row -> bool := (r: Row) => p1(r) && p2(r);
    var q123: Row -> bool := (r: Row) => q12(r) && p3(r);
    var byStage := FilterColumn(rows, StageOf, f.stages);
    var byType := FilterColumn(byStage, TypeOf, f.types);
    var byNationality := FilterColumn(byType, NationalityOf, f.nationalities);
    FilterColumnIsKeep(rows, StageOf, f.stages);
    FilterColumnIsKeep(byStage, TypeOf, f.types);
    FilterColumnIsKeep(byType, NationalityOf, f.nationalities);
    FilterColumnIsKeep(byNationality, NoteOf, f.clientNotes);
    KeepKeep(rows, p1, p2, q12);
    KeepKeep(rows, q12, p3, q123);
    KeepKeep(rows, q123, p4, FiltersMask(f));
  }

  /** Filtering yields an order-preserving subsequence whose rows are exactly the input rows passing
      every non-empty filter; with no filter set, nothing is removed. */
  lemma ApplyFiltersSpec(rows: seq<Row>, f: Filters, r: Row)
    ensures IsSubsequence(ApplyFilters(rows, f), rows)
    ensures r in ApplyFilters(rows, f) <==> r in rows && MatchesFilters(f, r)
    ensures ApplyFilters(rows, NoFilters) == rows
  {
    ApplyFiltersIsKeep(rows, f);
    KeepIsSubsequence(rows, FiltersMask(f));
    KeepMembers(rows, FiltersMask(f), r);
    ApplyFiltersIsKeep(rows, NoFilters);
    KeepAll(rows, FiltersMask(NoFilters));
  }

  /** `{str(id['stage']): t for t, id in zip(thresholds, ids)}`: `zip` stops at the shorter list and a
      later stage id overwrites an earlier one. */
  function ThresholdDict(thresholds: seq<real>, stageIds: seq<string>): map<string, real>
    decreases |thresholds|
  {
    var m := ZipLength(thresholds, stageIds);
    if m == 0 then map[]
    else ThresholdDict(thresholds[..m - 1], stageIds[..m - 1])[stageIds[m - 1] := thresholds[m - 1]]
  }

  /** The number of pairs `zip` makes: the length of the shorter list. */
  function ZipLength(thresholds: seq<real>, stageIds: seq<string>): nat
  {
    if |thresholds| < |stageIds| then |thresholds| else |stageIds|
  }

  /** The dictionary has a key for exactly the stage ids that `zip` pairs, and each maps to the value paired
      with its last occurrence. */
  lemma {:induction false} ThresholdDictSpec(thresholds: seq<real>, stageIds: seq<string>, j: nat, stage: string)
    ensures stage in ThresholdDict(thresholds, stageIds) <==>
      exists k :: 0 <= k < ZipLength(thresholds, stageIds) && stageIds[k] == stage
    ensures (j < ZipLength(thresholds, stageIds) &&
             forall k :: j < k < ZipLength(thresholds, stageIds) ==> stageIds[k] != stageIds[j]) ==>
      stageIds[j] in ThresholdDict(thresholds, stageIds) &&
      ThresholdDict(thresholds, stageIds)[stageIds[j]] == thresholds[j]
    decreases |thresholds|
  {
    var m := ZipLength(thresholds, stageIds);
    if m > 0 {
      var t', s' := thresholds[..m - 1], stageIds[..m - 1];
      assert ZipLength(t', s') == m - 1;
      ThresholdDictSpec(t', s', j, stage);
      if stage in ThresholdDict(thresholds, stageIds) && stage != stageIds[m - 1] {
        var k :| 0 <= k < m - 1 && s'[k] == stage;
        assert stageIds[k] == stage;
      }
      if exists k :: 0 <= k < m && stageIds[k] == stage {
        var k :| 0 <= k < m && stageIds[k] == stage;
        if k < m - 1 { assert s'[k] == stage; }
      }
      if j < m - 1 && (forall k :: j < k < m ==> stageIds[k] != stageIds[j]) {
        assert s'[j] == stageIds[j];
        forall k | j < k < m - 1 ensures s'[k] != s'[j] {
          assert s'[k] == stageIds[k];
        }
      }
    }
  }

  /** `threshold_dict.get(stage, 24)`. */
  function Threshold(thresholds: map<string, real>, stage: string): real
  {
    if stage in thresholds then thresholds[stage] else DefaultThreshold
  }

  /** The `Late` lambda: stage and time both present, and the time above the stage's threshold. */
  predicate IsLate(r: Row, thresholds: map<string, real>)
  {
    r.currentStage.Some? && r.timeInStage.Some? &&
    r.timeInStage.value > Threshold(thresholds, r.currentStage.value)
  }

  function LateMask(thresholds: map<string, real>): Row -> bool
  {
    (r: Row) => IsLate(r, thresholds)
  }

  /** `df[df['Late'] == True]`. */
  function LateCases(rows: seq<Row>, thresholds: map<string, real>): seq<Row>
  {
    Keep(rows, LateMask(thresholds))
  }

  /** The late cases are the order-preserving subsequence of the rows whose stage and time are present and
      whose time exceeds the stage's threshold (24 hours for a stage with no threshold). */
  lemma LateCasesSpec(rows: seq<Row>, thresholds: map<string, real>, r: Row)
    ensures IsSubsequence(LateCases(rows, thresholds), rows)
    ensures r in LateCases(rows, thresholds) <==>
      && r in rows
      && r.currentStage.Some? && r.timeInStage.Some?
      && r.timeInStage.value > (if r.currentStage.value in thresholds then thresholds[r.currentStage.value] else 24.0)
  {
    KeepIsSubsequence(rows, LateMask(thresholds));
    KeepMembers(rows, LateMask(thresholds), r);
  }

  /** Raising thresholds never makes more cases late: the late cases under higher thresholds are exactly
      the late cases under the lower ones that are still late. */
  lemma LateCasesMonotone(rows: seq<Row>, low: map<string, real>, high: map<string, real>)
    requires forall s :: Threshold(low, s) <= Threshold(high, s)
    ensures Keep(LateCases(rows, low), LateMask(high)) == LateCases(rows, high)
  {
    KeepKeep(rows, LateMask(low), LateMask(high), LateMask(high));
  }
}
