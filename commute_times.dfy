/**
 * The commute-interval reconstructor of get-commute-stats.py.
 *
 * A location log is an ordered sequence of rows (action, time, location).
 * A single forward pass keeps one piece of state, the time of a pending
 * "exited FROM" row, and emits one duration for every "entered TO" row that
 * immediately follows the row that opened the session.
 */
module CommuteReconstructor {

  datatype Option<T> = None | Some(value: T)

  /** One already-parsed log row; `time` is in whole seconds. */
  datatype Row = Row(action: string, time: int, location: string)

  /** The number of seconds in one day: the modulus of `timedelta.seconds`. */
  const SecondsPerDay: int := 86400

  /** `is_exited_location`: an exact, case-sensitive match of action and place. */
  predicate IsExitedLocation(expectedLocation: string, action: string, location: string)
    ensures IsExitedLocation(expectedLocation, action, location)
            <==> action == "exited" && location == expectedLocation
    // so no row is both an exit and an entry, whatever the two locations
    ensures IsExitedLocation(expectedLocation, action, location) ==>
              forall other :: !IsEnteredLocation(other, action, location)
  {
    action == "exited" && location == expectedLocation
  }

  /** `is_entered_location`: an exact, case-sensitive match of action and place. */
  predicate IsEnteredLocation(expectedLocation: string, action: string, location: string)
    ensures IsEnteredLocation(expectedLocation, action, location)
            <==> action == "entered" && location == expectedLocation
  {
    action == "entered" && location == expectedLocation
  }

  // The two predicates applied to a whole row; they only shorten the contracts below.
  predicate IsExitedRow(fromLoc: string, row: Row)
  {
    IsExitedLocation(fromLoc, row.action, row.location)
  }

  predicate IsEnteredRow(toLoc: string, row: Row)
  {
    IsEnteredLocation(toLoc, row.action, row.location)
  }

  /**
   * The `seconds` component of a `timedelta` of `d` seconds. Python normalises
   * a timedelta to days, seconds in [0, 86400) and microseconds, so this is
   * the unique value in that range that differs from `d` by whole days.
   */
  function DeltaSeconds(d: int): (s: int)
    ensures 0 <= s < SecondsPerDay
    ensures (d - s) % SecondsPerDay == 0
    ensures 0 <= d < SecondsPerDay ==> s == d
  {
    d % SecondsPerDay
  }

  /** The loop's state: the pending exit time and the durations so far. */
  datatype State = State(exitedTime: Option<int>, commuteTimes: seq<int>)

  const Initial: State := State(None, [])

  /** One iteration of the loop of `get_commute_times`. */
  function Step(fromLoc: string, toLoc: string, s: State, row: Row): (r: State)
    // a session is pending afterwards exactly when this row opened it
    ensures r.exitedTime.Some? <==> IsExitedRow(fromLoc, row) && s.exitedTime.None?
    ensures r.exitedTime.Some? ==> r.exitedTime.value == row.time
    // the durations are only ever appended to, one at most per row
    ensures s.commuteTimes <= r.commuteTimes
    ensures |r.commuteTimes| <= |s.commuteTimes| + 1
    ensures |r.commuteTimes| == |s.commuteTimes| + 1
            <==> s.exitedTime.Some? && IsEnteredRow(toLoc, row)
    ensures |r.commuteTimes| == |s.commuteTimes| + 1 ==>
              r.commuteTimes[|s.commuteTimes|] == DeltaSeconds(row.time - s.exitedTime.value)
  {
    if IsExitedRow(fromLoc, row) && s.exitedTime.None? then
      State(Some(row.time), s.commuteTimes)
    else if s.exitedTime.Some? && IsEnteredRow(toLoc, row) then
      State(None, s.commuteTimes + [DeltaSeconds(row.time - s.exitedTime.value)])
    else
      State(None, s.commuteTimes)
  }

  /** The state after the loop has consumed `rows`, in order. */
  function Run(fromLoc: string, toLoc: string, rows: seq<Row>): (r: State)
    ensures forall k :: 0 <= k < |r.commuteTimes| ==> 0 <= r.commuteTimes[k] < SecondsPerDay
    // every duration uses up two rows, and a pending session one more
    ensures 2 * |r.commuteTimes| + (if r.exitedTime.Some? then 1 else 0) <= |rows|
    decreases |rows|
  {
    if rows == [] then Initial
    else Step(fromLoc, toLoc, Run(fromLoc, toLoc, rows[..|rows| - 1]), rows[|rows| - 1])
  }

  /**
   * What `get_commute_times` returns for `rows`: the durations of `Run`
   * (named by itself because it is what the loop and the lemmas talk about).
   */
  function CommuteTimes(fromLoc: string, toLoc: string, rows: seq<Row>): (r: seq<int>)
    ensures forall k :: 0 <= k < |r| ==> 0 <= r[k] < SecondsPerDay
    ensures 2 * |r| <= |rows|
  {
    Run(fromLoc, toLoc, rows).commuteTimes
  }

  /** The reconstruction loop of `get_commute_times`. */
  method GetCommuteTimes(fromLoc: string, toLoc: string, rows: seq<Row>)
    returns (commuteTimes: seq<int>)
    ensures commuteTimes == CommuteTimes(fromLoc, toLoc, rows)
    ensures forall k :: 0 <= k < |commuteTimes| ==> 0 <= commuteTimes[k] < SecondsPerDay
  {
    commuteTimes := [];
    var exitedTime: Option<int> := None;
    for i := 0 to |rows|
      invariant State(exitedTime, commuteTimes) == Run(fromLoc, toLoc, rows[..i])
    {
      assert rows[..i + 1][..i] == rows[..i];
      var action, time, location := rows[i].action, rows[i].time, rows[i].location;

      if IsExitedLocation(fromLoc, action, location) && exitedTime.None? {
        exitedTime := Some(time);
        continue;
      }

      if exitedTime.Some? && IsEnteredLocation(toLoc, action, location) {
        var commuteTime := time - exitedTime.value;
        commuteTimes := commuteTimes + [DeltaSeconds(commuteTime)];
      }

      // if nothing else applies, reset the pending exit
      exitedTime := None;
    }
    assert rows[..|rows|] == rows;
  }
}
