/**
 * The `distribute_tasks` callback: the late cases left after the filters are
 * cut into contiguous chunks, one per selected user in the order selected, and
 * each registered user's chunk is written to that user's Google Sheet.
 *
 * `n` is the number of late cases and `k` the number of selected users; the
 * user at position `i` is due `n / k` cases, plus one when `i < n % k`.
 * An unknown username is reported and skipped without advancing the start
 * index, so its due share is handed to nobody and the tail of the late cases
 * stays undistributed.
 */
module Distribution {
  import opened Values
  import opened Text
  import opened Cases
  import opened Registry

  /** The number of cases due to position `i`: `chunk_size + (1 if i < remainder else 0)`. */
  function Share(i: nat, n: nat, k: nat): nat
    requires k > 0
  {
    n / k + (if i < n % k then 1 else 0)
  }

  /** The shares due to positions `0 .. i - 1`, registered or not. */
  function SharesBefore(n: nat, k: nat, i: nat): nat
    requires k > 0
  {
    if i == 0 then 0 else SharesBefore(n, k, i - 1) + Share(i - 1, n, k)
  }

  /** `start_idx` when position `i` is reached: the shares of the registered users before it. */
  function Consumed(selected: seq<string>, users: map<string, User>, n: nat, i: nat): nat
    requires i <= |selected|
  {
    if i == 0 then 0
    else Consumed(selected, users, n, i - 1) + (if selected[i - 1] in users then Share(i - 1, n, |selected|) else 0)
  }

  /** The shares due to unknown usernames before position `i`: cases nobody receives. */
  function Orphaned(selected: seq<string>, users: map<string, User>, n: nat, i: nat): nat
    requires i <= |selected|
  {
    if i == 0 then 0
    else Orphaned(selected, users, n, i - 1) + (if selected[i - 1] !in users then Share(i - 1, n, |selected|) else 0)
  }

  lemma {:induction false} SharesBeforeClosed(n: nat, k: nat, i: nat)
    requires k > 0
    ensures SharesBefore(n, k, i) == i * (n / k) + (if i < n % k then i else n % k)
  {
    if i > 0 {
      SharesBeforeClosed(n, k, i - 1);
      assert i * (n / k) == (i - 1) * (n / k) + n / k;
    }
  }

  /** The shares of all `k` positions add up to the `n` late cases. */
  lemma SharesTotal(n: nat, k: nat)
    requires k > 0
    ensures SharesBefore(n, k, k) == n
  {
    SharesBeforeClosed(n, k, k);
  }

  lemma {:induction false} SharesBeforeMonotone(n: nat, k: nat, i: nat, j: nat)
    requires k > 0 && i <= j
    ensures SharesBefore(n, k, i) <= SharesBefore(n, k, j)
    decreases j
  {
    if i < j {
      SharesBeforeMonotone(n, k, i, j - 1);
    }
  }

  /** Every due share is either consumed by a registered user or orphaned by an unknown one. */
  lemma {:induction false} ConsumedPlusOrphaned(selected: seq<string>, users: map<string, User>, n: nat, i: nat)
    requires 0 < |selected| && i <= |selected|
    ensures Consumed(selected, users, n, i) + Orphaned(selected, users, n, i) == SharesBefore(n, |selected|, i)
  {
    if i > 0 {
      ConsumedPlusOrphaned(selected, users, n, i - 1);
    }
  }

  /** The start index never passes the number of late cases, so every slice is in range. */
  lemma ConsumedBound(selected: seq<string>, users: map<string, User>, n: nat, i: nat)
    requires 0 < |selected| && i <= |selected|
    ensures Consumed(selected, users, n, i) <= n
  {
    ConsumedPlusOrphaned(selected, users, n, i);
    SharesBeforeMonotone(n, |selected|, i, |selected|);
    SharesTotal(n, |selected|);
  }

  /** What happened to one selected username. */
  datatype Outcome<T> =
    | NotFound
    | Assigned(sheetId: string, tasks: seq<T>)
    | SheetFailed(sheetId: string, tasks: seq<T>, error: string)

  /** The cases a position consumed: its slice, whether or not the sheet update went through. */
  function Taken<T>(o: Outcome<T>): seq<T>
  {
    match o
    case NotFound => []
    case Assigned(_, tasks) => tasks
    case SheetFailed(_, tasks, _) => tasks
  }

  /** The outcome at position `i`, stated without the running start index. `failures` holds the positions
      whose sheet update raised, with the exception's text. */
  function PlannedOutcome<T>(selected: seq<string>, users: map<string, User>, late: seq<T>,
                             failures: map<nat, string>, i: nat): Outcome<T>
    requires i < |selected|
  {
    if selected[i] !in users then NotFound
    else
      var start := Consumed(selected, users, |late|, i);
      ConsumedBound(selected, users, |late|, i + 1);
      var tasks := late[start..start + Share(i, |late|, |selected|)];
      var sheet := users[selected[i]].googleSheetId;
      if i in failures then SheetFailed(sheet, tasks, failures[i]) else Assigned(sheet, tasks)
  }

  function Plan<T>(selected: seq<string>, users: map<string, User>, late: seq<T>, failures: map<nat, string>): seq<Outcome<T>>
  {
    seq(|selected|, i requires 0 <= i < |selected| => PlannedOutcome(selected, users, late, failures, i))
  }

  /** The chunking loop of `distribute_tasks`. */
  method DistributeLate<T>(selected: seq<string>, users: map<string, User>, late: seq<T>, failures: map<nat, string>)
    returns (outcomes: seq<Outcome<T>>)
    requires |selected| > 0
    ensures outcomes == Plan(selected, users, late, failures)
  {
    var numUsers := |selected|;
    var chunkSize := |late| / numUsers;
    var remainder := |late| % numUsers;
    outcomes := [];
    var startIdx := 0;
    var i := 0;
    while i < numUsers
      invariant 0 <= i <= numUsers
      invariant startIdx == Consumed(selected, users, |late|, i)
      invariant |outcomes| == i
      invariant forall j :: 0 <= j < i ==> outcomes[j] == PlannedOutcome(selected, users, late, failures, j)
    {
      var username := selected[i];
      if username !in users {
        outcomes := outcomes + [NotFound];
        i := i + 1;
        continue;
      }
      var endIdx := startIdx + chunkSize + (if i < remainder then 1 else 0);
      ConsumedBound(selected, users, |late|, i + 1);
      var userData := late[startIdx..endIdx];
      startIdx := endIdx;
      var sheet := users[username].googleSheetId;
      if i in failures {
        outcomes := outcomes + [SheetFailed(sheet, userData, failures[i])];
      } else {
        outcomes := outcomes + [Assigned(sheet, userData)];
      }
      i := i + 1;
    }
  }

  /** The cases consumed by the first `|outs|` positions, in position order. */
  function Delivered<T>(outs: seq<Outcome<T>>): seq<T>
  {
    if |outs| == 0 then [] else Delivered(outs[..|outs| - 1]) + Taken(outs[|outs| - 1])
  }

  /** Position `i` consumes exactly the cases between its start index and the next one. */
  lemma TakenPlanned<T>(selected: seq<string>, users: map<string, User>, late: seq<T>,
                        failures: map<nat, string>, i: nat)
    requires i < |selected|
    ensures Consumed(selected, users, |late|, i) <= Consumed(selected, users, |late|, i + 1) <= |late|
    ensures Taken(PlannedOutcome(selected, users, late, failures, i)) ==
      late[Consumed(selected, users, |late|, i)..Consumed(selected, users, |late|, i + 1)]
  {
    ConsumedBound(selected, users, |late|, i + 1);
  }

  /** Delivering one more outcome appends its slice. */
  lemma DeliveredStep<T>(outs: seq<Outcome<T>>, i: nat)
    requires 0 < i <= |outs|
    ensures Delivered(outs[..i]) == Delivered(outs[..i - 1]) + Taken(outs[i - 1])
  {
    assert outs[..i][..i - 1] == outs[..i - 1];
  }

  lemma SliceSplit<T>(s: seq<T>, c: nat, d: nat)
    requires c <= d <= |s|
    ensures s[..c] + s[c..d] == s[..d]
  {
  }

  /** Outcomes that agree with the plan on the first `i` positions deliver the late cases up to the start
      index of position `i`. */
  lemma {:induction false} TilesUpTo<T>(selected: seq<string>, users: map<string, User>, late: seq<T>,
                                        failures: map<nat, string>, outs: seq<Outcome<T>>, i: nat)
    requires 0 < |selected| && i <= |selected| && i <= |outs|
    requires forall j :: 0 <= j < i ==> outs[j] == PlannedOutcome(selected, users, late, failures, j)
    ensures Consumed(selected, users, |late|, i) <= |late|
    ensures Delivered(outs[..i]) == late[..Consumed(selected, users, |late|, i)]
  {
    ConsumedBound(selected, users, |late|, i);
    if i > 0 {
      TilesUpTo(selected, users, late, failures, outs, i - 1);
      DeliveredStep(outs, i);
      TakenPlanned(selected, users, late, failures, i - 1);
      var c := Consumed(selected, users, |late|, i - 1);
      var c' := Consumed(selected, users, |late|, i);
      assert outs[i - 1] == PlannedOutcome(selected, users, late, failures, i - 1);
      SliceSplit(late, c, c');
    }
  }

  /** The consumed slices tile a prefix of the late cases: contiguous, in input order, without overlap. */
  lemma PlanTiles<T>(selected: seq<string>, users: map<string, User>, late: seq<T>,
                     failures: map<nat, string>, i: nat)
    requires 0 < |selected| && i <= |selected|
    ensures Consumed(selected, users, |late|, i) <= |late|
    ensures Delivered(Plan(selected, users, late, failures)[..i]) == late[..Consumed(selected, users, |late|, i)]
  {
    TilesUpTo(selected, users, late, failures, Plan(selected, users, late, failures), i);
  }

  /** Conservation: when every selected username is registered, the chunks put together are exactly the
      late cases, so every late case goes to exactly one user. */
  lemma Conservation<T>(selected: seq<string>, users: map<string, User>, late: seq<T>, failures: map<nat, string>)
    requires 0 < |selected|
    requires forall i :: 0 <= i < |selected| ==> selected[i] in users
    ensures Delivered(Plan(selected, users, late, failures)) == late
  {
    var k := |selected|;
    OrphanedNone(selected, users, |late|, k);
    ConsumedPlusOrphaned(selected, users, |late|, k);
    SharesTotal(|late|, k);
    PlanTiles(selected, users, late, failures, k);
    assert Plan(selected, users, late, failures)[..k] == Plan(selected, users, late, failures);
  }

  lemma {:induction false} OrphanedNone(selected: seq<string>, users: map<string, User>, n: nat, i: nat)
    requires i <= |selected|
    requires forall j :: 0 <= j < |selected| ==> selected[j] in users
    ensures Orphaned(selected, users, n, i) == 0
  {
    if i > 0 {
      OrphanedNone(selected, users, n, i - 1);
    }
  }

  /** The documented quirk: the cases consumed are a prefix of the late cases whose length falls short of
      the total by exactly the shares due to unknown usernames; those tail cases go to nobody. */
  lemma OrphanedTail<T>(selected: seq<string>, users: map<string, User>, late: seq<T>, failures: map<nat, string>)
    requires 0 < |selected|
    ensures Orphaned(selected, users, |late|, |selected|) <= |late|
    ensures Delivered(Plan(selected, users, late, failures)) ==
      late[..|late| - Orphaned(selected, users, |late|, |selected|)]
  {
    var k := |selected|;
    ConsumedPlusOrphaned(selected, users, |late|, k);
    SharesTotal(|late|, k);
    PlanTiles(selected, users, late, failures, k);
    assert Plan(selected, users, late, failures)[..k] == Plan(selected, users, late, failures);
  }

  /** Balance: a registered user at position `i` receives `n / k` cases, one more when `i < n % k`; so
      any two registered users' counts differ by at most one and the earlier one never gets fewer. An
      unknown username consumes nothing and reports NotFound. */
  lemma Fairness<T>(selected: seq<string>, users: map<string, User>, late: seq<T>, failures: map<nat, string>, i: nat, j: nat)
    requires i < |selected| && j < |selected|
    ensures var plan := Plan(selected, users, late, failures);
      && (selected[i] in users ==>
           |Taken(plan[i])| == |late| / |selected| + (if i < |late| % |selected| then 1 else 0))
      && (selected[i] !in users ==> plan[i] == NotFound && Taken(plan[i]) == [])
      && (i <= j && selected[i] in users && selected[j] in users ==>
           |Taken(plan[j])| <= |Taken(plan[i])| <= |Taken(plan[j])| + 1)
  {
    TakenPlanned(selected, users, late, failures, i);
    TakenPlanned(selected, users, late, failures, j);
  }

  /** The example of the quirk: with users A, B (unknown), C and nine late cases, A gets cases 0-2, B is
      reported not found, C gets cases 3-5, and cases 6-8 go to nobody. */
  lemma UnknownUserExample<T>(users: map<string, User>, late: seq<T>)
    requires "A" in users && "B" !in users && "C" in users
    requires |late| == 9
    ensures Plan(["A", "B", "C"], users, late, map[]) ==
      [Assigned(users["A"].googleSheetId, late[0..3]), NotFound, Assigned(users["C"].googleSheetId, late[3..6])]
    ensures |Delivered(Plan(["A", "B", "C"], users, late, map[]))| == 6
    ensures ResultOf("B", Plan(["A", "B", "C"], users, late, map[])[1]) == UserResult("error", "User B not found")
  {
    var s := ["A", "B", "C"];
    assert Share(0, 9, 3) == 3 && Share(1, 9, 3) == 3 && Share(2, 9, 3) == 3;
    assert Consumed(s, users, 9, 1) == 3;
    assert Consumed(s, users, 9, 2) == 3;
    assert Consumed(s, users, 9, 3) == 6;
    var plan := Plan(s, users, late, map[]);
    assert plan[0] == Assigned(users["A"].googleSheetId, late[0..3]);
    assert plan[1] == NotFound;
    assert plan[2] == Assigned(users["C"].googleSheetId, late[3..6]);
    assert plan[..3] == plan;
    PlanTiles(s, users, late, map[], 3);
  }

  /** The `{"status", "message"}` entry of `results`. */
  datatype UserResult = UserResult(status: string, message: string)

  function ResultOf<T>(username: string, o: Outcome<T>): UserResult
  {
    match o
    case NotFound => UserResult("error", "User " + username + " not found")
    case Assigned(_, tasks) => UserResult("success", "Assigned " + NatToString(|tasks|) + " late cases to " + username)
    case SheetFailed(_, _, error) => UserResult("error", "Failed to update sheet for " + username + ": " + error)
  }

  /** The `results` dictionary: one key per selected username; a repeated username keeps its last outcome. */
  function Results<T>(selected: seq<string>, outcomes: seq<Outcome<T>>): map<string, UserResult>
    requires |outcomes| == |selected|
  {
    if |selected| == 0 then map[]
    else
      var last := |selected| - 1;
      Results(selected[..last], outcomes[..last])[selected[last] := ResultOf(selected[last], outcomes[last])]
  }

  /** The keys of `results` are the selected usernames, and without repetitions each maps to the result of
      its own position. */
  lemma {:induction false} ResultsSpec<T>(selected: seq<string>, outcomes: seq<Outcome<T>>, i: nat)
    requires |outcomes| == |selected|
    ensures forall u :: u in Results(selected, outcomes) <==> u in selected
    ensures i < |selected| && (forall j :: 0 <= j < |selected| && j != i ==> selected[j] != selected[i]) ==>
      selected[i] in Results(selected, outcomes) &&
      Results(selected, outcomes)[selected[i]] == ResultOf(selected[i], outcomes[i])
  {
    if |selected| > 0 {
      var last := |selected| - 1;
      ResultsSpec(selected[..last], outcomes[..last], i);
      assert selected == selected[..last] + [selected[last]];
      if i < last && (forall j :: 0 <= j < |selected| && j != i ==> selected[j] != selected[i]) {
        forall j | 0 <= j < last && j != i ensures selected[..last][j] != selected[..last][i] {
          assert selected[..last][j] == selected[j];
        }
      }
    }
  }

  /** The usernames of `results` in dictionary order: first occurrences, in selection order. */
  function FirstOccurrences(selected: seq<string>): seq<string>
  {
    if |selected| == 0 then []
    else
      var init := FirstOccurrences(selected[..|selected| - 1]);
      if selected[|selected| - 1] in selected[..|selected| - 1] then init else init + [selected[|selected| - 1]]
  }

  lemma {:induction false} FirstOccurrencesSpec(selected: seq<string>)
    ensures forall u :: u in FirstOccurrences(selected) <==> u in selected
    ensures Seqs.Distinct(selected) ==> FirstOccurrences(selected) == selected
  {
    if |selected| > 0 {
      var init := selected[..|selected| - 1];
      FirstOccurrencesSpec(init);
      assert selected == init + [selected[|selected| - 1]];
      if Seqs.Distinct(selected) {
        assert Seqs.Distinct(init) by {
          forall a, b | 0 <= a < b < |init| ensures init[a] != init[b] {
            assert init[a] == selected[a] && init[b] == selected[b];
          }
        }
        assert selected[|selected| - 1] !in init by {
          forall a | 0 <= a < |init| ensures init[a] != selected[|selected| - 1] {
            assert init[a] == selected[a];
          }
        }
      }
    }
  }

  /** The alerts the callback shows, one per entry of `results`: green for success, red otherwise. */
  function ResultAlerts(order: seq<string>, results: map<string, UserResult>): seq<Alert>
    requires forall i :: 0 <= i < |order| ==> order[i] in results
  {
    seq(|order|, i requires 0 <= i < |order| =>
      var r := results[order[i]];
      Alert(if r.status == "success" then Success else Danger, r.message))
  }

  datatype Report<T> =
    | Refused(alert: Alert)
    | Distributed(outcomes: seq<Outcome<T>>, alerts: seq<Alert>)

  const NoInputAlert := Alert(Warning, "No users selected or no data uploaded.")
  const EmptyFileAlert := Alert(Danger, "Uploaded file is empty or invalid.")
  const NoLateAlert := Alert(Warning, "No late cases found to distribute.")

  /** The whole `distribute_tasks` callback. `upload` is the parsed file (`None` when nothing was
      uploaded); the threshold inputs are given as values and stage ids. */
  method DistributeTasks(selected: seq<string>, upload: Option<seq<Row>>, filters: Filters,
                         thresholds: seq<real>, stageIds: seq<string>,
                         users: map<string, User>, failures: map<nat, string>)
    returns (report: Report<Row>)
    ensures |selected| == 0 || upload.None? ==> report == Refused(NoInputAlert)
    ensures |selected| > 0 && upload == Some([]) ==> report == Refused(EmptyFileAlert)
    ensures |selected| > 0 && upload.Some? && |upload.value| > 0 ==>
      var late := LateCases(ApplyFilters(upload.value, filters), ThresholdDict(thresholds, stageIds));
      && (|late| == 0 ==> report == Refused(NoLateAlert))
      && (|late| > 0 ==> report.Distributed? && report.outcomes == Plan(selected, users, late, failures))
    ensures report.Distributed? ==>
      var results := Results(selected, report.outcomes);
      && |report.alerts| == |FirstOccurrences(selected)|
      && forall i :: 0 <= i < |report.alerts| ==>
           var u := FirstOccurrences(selected)[i];
           u in results &&
           report.alerts[i] == Alert(if results[u].status == "success" then Success else Danger, results[u].message)
  {
    if |selected| == 0 || upload.None? {
      return Refused(NoInputAlert);
    }
    var df := upload.value;
    if |df| == 0 {
      return Refused(EmptyFileAlert);
    }
    var filtered := ApplyFilters(df, filters);
    var thresholdDict := ThresholdDict(thresholds, stageIds);
    var late := LateCases(filtered, thresholdDict);
    if |late| == 0 {
      return Refused(NoLateAlert);
    }
    var outcomes := DistributeLate(selected, users, late, failures);
    var results := Results(selected, outcomes);
    var order := FirstOccurrences(selected);
    FirstOccurrencesSpec(selected);
    ResultsSpec(selected, outcomes, 0);
    report := Distributed(outcomes, ResultAlerts(order, results));
  }
}
