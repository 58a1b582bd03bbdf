# Delayed housemaid cases dashboard: a Dafny model of its logic

The dashboard (`app.py`) loads a sheet of housemaid visa cases and works out which
cases are late. A case is late when its time in its current stage is above that
stage's threshold in hours. The dashboard then shows counts and top-ten charts, and
it can hand the late cases to staff members. Each staff member has a Google Sheet
as a work queue. This project models the logic behind those screens and proves
what it promises:

- `values.dfy` (`Values`): a cell is present (`Some`) or missing (`None`).
- `text.dfy` (`Text`): Python's string order, `sep.join`, `str(n)`.
- `seqs.dfy` (`Seqs`): selection by a boolean mask (`df[mask]`), subsequences and
  distinct values.
- `unique.dfy` (`Unique`): `get_sorted_unique`.
- `frames.dfy` (`Frames`): the forward-fill loop of `parse_contents` and the default
  `Late` column.
- `cases.dfy` (`Cases`): case rows, the four drop-down filters, the per-stage
  threshold dictionary and the `Late` flag.
- `registry.dfy` (`Registry`): `User`, `UserManager.users` and the add / update /
  delete user callbacks.
- `distribution.dfy` (`Distribution`): the `distribute_tasks` callback. This is the
  chunking loop, its position-wise plan and the per-user results.
- `dashboard.dfy` (`Dashboard`): the three counters and the per-stage top-ten tables
  of `update_dashboard`.
- `export.dfy` (`Export`): the download file name built by `export_data`.

Distribution rules: with `n` late cases and `k` selected users, the user at position
`i` is due `n / k` cases, plus one more when `i < n % k`. Cases are handed out as
contiguous slices, in the order the users were selected. An unknown username is
reported as not found. It does not advance the start index, so its due share goes
to nobody. The method `DistributeLate` keeps the source's running `start_idx`. It is
proved equal to `Plan`, which states each position's slice position-wise, without the
running index (`Consumed`, the sum of the shares of the registered users before it). The lemmas are about `Plan`.

The code, and so the model, differs from what a reader of such a dashboard might
expect in these points:

- A distribution run never changes a user's `workload`.
- An empty slice is reported as a success ("Assigned 0 late cases"), not as a warning.
- Adding or updating a user does not check that the sheet can be reached.
- The registry is not saved anywhere.
- No severity bucket or priority score is computed anywhere.

Environment inputs become parameters. The parsed upload is an `Option<seq<Row>>`
(`None` when nothing was uploaded). The sheet writes are a map `failures` from the
position whose `sheet.update` raised to the text of the exception. The registry is
passed to the distribution as the value of `users`.

## Model

| member | source | states |
|---|---|---|
| `Frames.FFillSpec` | app.py:728-730 | `ffill` keeps the number of rows. It leaves every present cell unchanged. A missing cell gets the nearest present value above it, and leading missing cells stay missing. |
| `Frames.FFillIdempotent` | app.py:730 | Forward-filling an already filled column changes nothing. |
| `Frames.ForwardFillColumns` | app.py:721-730 | The loop leaves the table's column names alone. Each listed column that is present becomes its forward-fill; every other column is unchanged. |
| `Frames.CleanFrame` | app.py:721-734 | After the fill, the table keeps its height and stays rectangular. It gains a `Late` column of `False` only when it had none. |
| `Unique.SortedUnique` | app.py:692-695 | The result is strictly ascending in Python string order (so it has no repeats). It holds exactly the values present in the column. |
| `Unique.StrictlySortedUnique` | app.py:692-695 | A strictly ascending list is fixed by its set of values. So `get_sorted_unique` does not depend on row order. |
| `Text.LessTotal` | app.py:695 | Python's string order is total: two different strings are ordered one way or the other. |
| `Text.LessTransitive` | app.py:695 | Python's string order is transitive. |
| `Cases.ApplyFiltersIsKeep` | app.py:967-974 | The four `isin` filters in turn equal one selection by the conjunction of the non-empty filters. |
| `Cases.ApplyFiltersSpec` | app.py:967-974 | The filtered rows form an order-preserving subsequence. A row is in it iff it is an input row whose value is in every non-empty filter list. With no filters set, the rows are unchanged. |
| `Cases.ThresholdDictSpec` | app.py:977-980 | The dictionary has a key for exactly the stage ids that `zip` pairs with a value. Each id maps to the value paired with its last occurrence. |
| `Cases.LateCasesSpec` | app.py:983-991 | The late cases form an order-preserving subsequence of the rows. A row is in it iff its stage and time are both present and the time exceeds the stage's threshold (24 hours when the stage has none). |
| `Cases.LateCasesMonotone` | app.py:983-987 | Raising thresholds never adds late cases. Selecting by the higher thresholds among the old late cases gives exactly the new late cases. |
| `Registry.NewUser` | app.py:183-187 | A new `User` has the given name and sheet id, is active and has workload 0. |
| `Registry.Without` | app.py:923 | Deleting a key keeps the dictionary order of the other keys. The result has no repeats, is a subsequence of the old order, and holds every old key except the removed one. |
| `Registry.UserManager.constructor` | app.py:190-220 | The registry starts with the seven seeded users, in their listed order, with valid bookkeeping. |
| `Registry.UserManager.Table` | app.py:855-864 | The user table has one row per registered user and no more. Rows follow dictionary order and show name, sheet id, "Active"/"Inactive" and workload. |
| `Registry.UserManager.AddUser` | app.py:842-865 | Fails with a warning when any field is empty, or with an error when the username exists; `users` is then unchanged. Otherwise it adds exactly one key, an active user with workload 0, at the end of the order. |
| `Registry.UserManager.UpdateUser` | app.py:877-904 | Fails without change when the username is empty or unknown. Otherwise it overwrites only that user's name and/or sheet id, and only with non-empty values. Active flag, workload, the other entries and the order are kept. |
| `Registry.UserManager.DeleteUser` | app.py:914-937 | Fails without change when the username is empty or unknown. Otherwise it removes exactly that key and keeps the other entries and their order. |
| `Registry.AddThenDelete` | app.py:842-923 | Adding a username that is in neither the map nor the order, and then deleting it, gives back the original map and order. |
| `Distribution.SharesTotal` | app.py:1001-1013 | The due shares of all `k` positions add up to the `n` late cases. |
| `Distribution.ConsumedPlusOrphaned` | app.py:1005-1015 | Every due share is either consumed by a registered user or orphaned by an unknown one. |
| `Distribution.ConsumedBound` | app.py:1013-1014 | `start_idx` never passes the number of late cases, so every `iloc` slice is in range. |
| `Distribution.TakenPlanned` | app.py:1013-1015 | Position `i` consumes exactly the cases between its start index and the next position's. |
| `Distribution.DistributeLate` | app.py:999-1026 | The chunking loop gives every position the outcome of the position-wise plan, stated without the running index. Unknown users get not-found and registered users get their slice, with the sheet id and any write failure. |
| `Distribution.PlanTiles` | app.py:1005-1015 | The consumed slices, in position order, put together are the prefix of the late cases up to the start index. So they are contiguous, in order and never overlap. |
| `Distribution.Conservation` | app.py:1001-1015 | When every selected username is registered, the slices put together are exactly the late cases. |
| `Distribution.OrphanedTail` | app.py:1007-1015 | In general, the cases handed out are the prefix that falls short of the total by exactly the shares of unknown usernames. The tail goes to nobody. |
| `Distribution.Fairness` | app.py:1002-1013 | A registered user at position `i` gets `n / k` cases, plus one when `i < n % k`. Two registered users differ by at most one, and the earlier never gets fewer. An unknown username is not found and takes nothing. |
| `Distribution.UnknownUserExample` | app.py:1007-1015 | With [A, B unknown, C] and 9 cases: A gets cases 0-2 and C gets 3-5; B is "User B not found"; only 6 cases are handed out. |
| `Distribution.ResultsSpec` | app.py:1009-1026 | `results` has one key per selected username. When it is not repeated, each key holds the status and message of its own position. |
| `Distribution.FirstOccurrencesSpec` | app.py:1029-1034 | The alerts follow the usernames in first-selection order. That is the selection order itself when nobody is selected twice. |
| `Distribution.DistributeTasks` | app.py:953-1035 | No users or no upload gives a warning, an empty upload an error, and no late cases a warning. Otherwise the late cases are distributed by the plan, with one alert per result (green on success, red otherwise). |
| `Dashboard.DistinctNamesWhereSpec` | app.py:1101-1103 | A counter never exceeds the number of matching rows, and it is zero exactly when no row matches. |
| `Dashboard.RepeatedNameCountsOnce` | app.py:1101-1103 | Another matching row whose name has already been counted leaves the counter unchanged. |
| `Dashboard.StageCountsCover` | app.py:1107 | There is a group for a stage exactly when some row is at that stage. |
| `Dashboard.StageCountsSorted` | app.py:1107 | Groups come in strictly ascending stage order, so no stage has two groups. |
| `Dashboard.GroupBound` | app.py:1107 | A stage's distinct-name count never exceeds the number of its rows. |
| `Dashboard.SortByCount` | app.py:1108 | Sorting by count gives a descending permutation of the groups. |
| `Dashboard.TopStagesSpec` | app.py:1108 | The cut keeps `min(10, groups)` groups, largest first, all taken from the input. No group left out has a larger count than a kept one. |
| `Dashboard.DashboardMetrics` | app.py:1059-1144 | No upload or an empty one shows zeros. Otherwise each counter is bounded by the number of rows, and both tables have at most ten entries in descending order. |
| `Export.ExportBaseName` | app.py:1286-1298 | The name is `filtered_data` followed by `_` and a tag for each set filter, in source order. It is `filtered_data` alone exactly when no filter is set. |

## Left out

- The Dash layout, CSS, callback wiring, Plotly figures and DataTable styling: these are presentation only.
- The Google Sheets client (credentials, `open_by_key`, `clear`, `update`) is network I/O. A write is only a per-position success or failure with an error text. `UserManager.distribute_data` is not part of this model: nothing in the program calls it, and its body only drives the Sheets client.
- Base64 decoding and the pandas CSV/Excel readers are foreign libraries. The model starts from the parsed rows.
- The `sort_values` by note time and try count in `parse_contents` is left out, because its handling of missing values is library-defined.
- CSV/Excel encoding and the clientside callback in `export_data` are I/O. Only the file-name builder is modelled.
- Server start-up.
- Dashboard.SortByCount: pandas' default sort is not stable, so its order for tied counts is a library choice. The model keeps tied groups in ascending stage order. The top-ten lemma holds for any tie order.
- Cases.IsLate: a threshold input that the user clears (value `None`) makes the source raise on `>`; the model takes every threshold as a number.
- An unset drop-down (`None`) and an empty one are the same value `[]`, because the source treats both as "no filter". Likewise an absent form field in the user dialog is `""`.
- Only the columns the logic reads are fields. A filter on a column that the sheet lacks raises `KeyError` in the source, and that is not modelled.
- `update_user` changes the `User` object in place. The model replaces the dictionary entry with an updated value. Nothing else holds a reference to a `User`, so the effect is the same.
- The `except Exception` branches of the callbacks: no modelled step can raise.
- Unique.SortedUnique: the drop-down columns are taken as text cells. The source applies `str` to every present cell, whatever its type, so a numeric or boolean cell, and a column holding both `1` and `"1"` (which the source lists as `"1"` twice), are not modelled.
- Cases.IsIn: the filter columns are taken as text cells, so `isin` compares text with text. A numeric or boolean cell in those columns, which `isin` compares by raw value, is not modelled.
- Distribution.Results: a username selected twice keeps its last outcome, as the dictionary does. The multi-select drop-down does not produce repeats.
