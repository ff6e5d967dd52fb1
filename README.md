# Commute-interval reconstruction

A Dafny model of the core of `get-commute-stats.py`: the function
`get_commute_times` and its two predicates `is_exited_location` and
`is_entered_location`. The program reads a log of location events, each an
`(action, time, location)` row with an action such as `"entered"` or
`"exited"`, and reconstructs commutes from a FROM location (default `Home`)
to a TO location (default `Work`).

The reconstruction is one forward pass with one piece of state, the time of
a pending exit:

- an "exited FROM" row opens a session only when none is pending, and then
  skips the reset at the end of the iteration;
- an "entered TO" row while a session is pending appends a duration;
- every other iteration, the matching one included, clears the pending exit.
  A second "exited FROM" while a session is pending therefore cancels it, and
  both exits are lost.

The stored duration is `timedelta.seconds`, not the total: the difference in
seconds taken modulo one day, always in `[0, 86400)`.

Files:

- `commute_times.dfy`, module `CommuteReconstructor`: the rows (`Row`), the
  two predicates, `DeltaSeconds` (the `.seconds` normalisation), the loop
  state (`State`), one iteration (`Step`), the whole pass as a left fold
  (`Run`, `CommuteTimes`), and the imperative loop `GetCommuteTimes`, a
  `for` loop with `continue` proved equal to `CommuteTimes`.
- `commute_properties.dfy`, module `CommuteProperties`: independent
  definitions (`ExitCount`, `ExitRun`, the maximal run of "exited FROM" rows
  before an index, and `PairDurations`, the durations of the adjacent
  exit/entry pairs) and the lemmas that relate the pass to them, plus the
  regression cases of the reset policy.

Times are already-parsed integers in seconds. The FROM and TO names are
parameters (`fromLoc`, `toLoc`) in place of the `opts` object.

Rows are processed in the order given, with no re-sorting. A reversed pair
less than a day apart does not give a negative duration: `.seconds` wraps it
to `86400 - (t0 - t1)` (`OutOfOrderWraps`). A pair a day or more apart loses
whole days. A second "exited FROM" row while a session is pending cancels the
session, and both exits are lost (`ExitWhilePendingCancels`,
`DoubleExitGivesNothing`).

## Model

| member | source | states |
|---|---|---|
| `CommuteReconstructor.IsExitedLocation` | get-commute-stats.py:60-61 | true exactly when the action equals `"exited"` and the location equals `expectedLocation`, both by exact, case-sensitive string equality; such a row never satisfies `IsEnteredLocation` for any location |
| `CommuteReconstructor.IsEnteredLocation` | get-commute-stats.py:64-65 | true exactly when the action equals `"entered"` and the location equals `expectedLocation`, both by exact, case-sensitive string equality |
| `CommuteReconstructor.DeltaSeconds` | get-commute-stats.py:99-100 | the stored value lies in `[0, 86400)`, differs from the time difference by whole days, and equals it when the difference is non-negative and under a day |
| `CommuteReconstructor.Step` | get-commute-stats.py:92-105 | after one row a session is pending iff that row is "exited FROM" and none was pending, holding that row's time; durations are only appended, at most one per row, and one is appended iff a session was pending and the row is "entered TO", its value the wrapped difference from the pending exit |
| `CommuteReconstructor.Run` | get-commute-stats.py:84-105 | every duration produced by the pass lies in `[0, 86400)`; twice the number of durations, plus one if a session is pending, is at most the number of rows |
| `CommuteReconstructor.CommuteTimes` | get-commute-stats.py:79-107 | the list returned by the pass has every value in `[0, 86400)` and at most one duration per two rows |
| `CommuteReconstructor.GetCommuteTimes` | get-commute-stats.py:79-107 | the loop with its `continue` returns exactly the durations of the pass `CommuteTimes`, each in `[0, 86400)` |
| `CommuteProperties.PendingAfterRow` | get-commute-stats.py:92-105 | the loop invariant: after row i the exit time is set iff row i is "exited FROM" and it was unset before, and then it is row i's time; otherwise it is unset |
| `CommuteProperties.PendingIsOddExitRun` | get-commute-stats.py:92-105 | after the first i rows a session is pending iff they end in an odd-length run of "exited FROM" rows, and it holds the time of the last row |
| `CommuteProperties.CommuteTimesArePairDurations` | get-commute-stats.py:92-100 | the result is exactly the wrapped durations of the adjacent pairs (j-1, j) where row j is "entered TO" and row j-1 opened a session, in input order |
| `CommuteProperties.CommuteEndFollowsExit` | get-commute-stats.py:92-97 | a row that closes a commute is "entered TO" and directly follows an "exited FROM" row |
| `CommuteProperties.CountBound` | get-commute-stats.py:92-100 | the number of durations, plus one if a session is still pending, is at most the number of "exited FROM" rows |
| `CommuteProperties.NoExitNoCommute` | get-commute-stats.py:92-95 | with no "exited FROM" row no session ever opens and the result is empty |
| `CommuteProperties.AppendOnly` | get-commute-stats.py:100 | the durations of a log are a prefix of the durations of any extension of it |
| `CommuteProperties.OtherRowResets` | get-commute-stats.py:104-105 | appending a row that is neither "exited FROM" nor "entered TO" to any log clears the pending exit and leaves the durations unchanged |
| `CommuteProperties.UnknownActionMatchesNeither` | get-commute-stats.py:60-65 | an action other than exactly `"exited"` or `"entered"` (matching is case-sensitive) satisfies neither predicate at any location, and appended to any log it only clears the pending exit |
| `CommuteProperties.ExitWhilePendingCancels` | get-commute-stats.py:92-105 | appending an "exited FROM" row to any log that ends with a session pending cancels the session and leaves the durations unchanged |
| `CommuteProperties.SingleCommute` | get-commute-stats.py:92-100 | `[exited FROM t0, entered TO t1]` gives exactly `[(t1 - t0) mod 86400]`, which is `[t1 - t0]` when that is under a day |
| `CommuteProperties.DoubleExitGivesNothing` | get-commute-stats.py:92-105 | `[exited FROM, exited FROM, entered TO]` gives an empty result |
| `CommuteProperties.InterveningRowGivesNothing` | get-commute-stats.py:97-105 | `[exited FROM, entered OTHER, entered TO]` with OTHER not TO gives an empty result |
| `CommuteProperties.OutOfOrderWraps` | get-commute-stats.py:99-100 | rows are taken in the given order; an entry less than a day before its exit gives the positive value `86400 - (t0 - t1)` |

## Left out

- Timestamp parsing with `arrow.get` and the `' at '` substitution (get-commute-stats.py:89): a foreign library; times are already-parsed integer seconds, and a malformed timestamp, which aborts the pass, is not modelled.
- Rows with fewer than three fields, which raise `IndexError` (get-commute-stats.py:85-90): every row is a well-formed `Row`.
- Reading the CSV from a file or over HTTP (get-commute-stats.py:68-76): I/O.
- Percentiles with `np.percentile` and their formatting with `datetime.timedelta` (`get_commute_stats`, get-commute-stats.py:110-115): floating-point interpolation and string formatting inside numpy and the standard library; the failure on an empty list also comes from numpy.
- Argument parsing, logger setup and the `logger.debug` calls (get-commute-stats.py:17-57, 94, 101-102): no effect on the result.
- `lambda_handler` and `main` (get-commute-stats.py:118-158): SNS publishing, printing and top-level exception handling are I/O and glue; their FROM/TO defaults `Home` and `Work` become the `fromLoc` and `toLoc` parameters.
