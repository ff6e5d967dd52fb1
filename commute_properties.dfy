/**
 * Properties of the commute-interval reconstructor: what the single pass
 * emits, stated against independent definitions, and the regression cases
 * that pin down its reset policy.
 */
module CommuteProperties {
  import opened CommuteReconstructor

  /** The number of "exited FROM" rows in `rows`. */
  function ExitCount(fromLoc: string, rows: seq<Row>): (n: nat)
    ensures n <= |rows|
    decreases |rows|
  {
    if rows == [] then 0
    else ExitCount(fromLoc, rows[..|rows| - 1]) + (if IsExitedRow(fromLoc, rows[|rows| - 1]) then 1 else 0)
  }

  /**
   * The length of the maximal run of consecutive "exited FROM" rows that ends
   * just before index `i`.
   */
  function ExitRun(fromLoc: string, rows: seq<Row>, i: nat): (r: nat)
    requires i <= |rows|
    ensures r <= i
    ensures forall k :: i - r <= k < i ==> IsExitedRow(fromLoc, rows[k])
    ensures r < i ==> !IsExitedRow(fromLoc, rows[i - r - 1])
  {
    if i == 0 || !IsExitedRow(fromLoc, rows[i - 1]) then 0
    else 1 + ExitRun(fromLoc, rows, i - 1)
  }

  /**
   * Row `j` closes a commute: it is "entered TO" and the row before it opened
   * a session, which is the case exactly when an odd number of "exited FROM"
   * rows precede it without interruption.
   */
  predicate IsCommuteEnd(fromLoc: string, toLoc: string, rows: seq<Row>, j: nat)
    requires j < |rows|
  {
    IsEnteredRow(toLoc, rows[j]) && ExitRun(fromLoc, rows, j) % 2 == 1
  }

  /** The durations of the adjacent (exit, entry) pairs among the first `n` rows, in order. */
  function PairDurations(fromLoc: string, toLoc: string, rows: seq<Row>, n: nat): seq<int>
    requires n <= |rows|
  {
    if n == 0 then []
    else
      PairDurations(fromLoc, toLoc, rows, n - 1)
      + (if IsCommuteEnd(fromLoc, toLoc, rows, n - 1)
         then [DeltaSeconds(rows[n - 1].time - rows[n - 2].time)]
         else [])
  }

  lemma PrefixOfPrefix(rows: seq<Row>, i: nat)
    requires 0 < i <= |rows|
    ensures rows[..i][..i - 1] == rows[..i - 1]
    ensures rows[..i][i - 1] == rows[i - 1]
  {
  }

  /**
   * The loop invariant: after row i a session is pending exactly when row i
   * is "exited FROM" and none was pending before it, and then it holds that
   * row's time.
   */
  lemma {:induction false} PendingAfterRow(fromLoc: string, toLoc: string, rows: seq<Row>, i: nat)
    requires i < |rows|
    ensures Run(fromLoc, toLoc, rows[..i + 1]).exitedTime.Some?
            <==> IsExitedRow(fromLoc, rows[i]) && Run(fromLoc, toLoc, rows[..i]).exitedTime.None?
    ensures Run(fromLoc, toLoc, rows[..i + 1]).exitedTime.Some? ==>
              Run(fromLoc, toLoc, rows[..i + 1]).exitedTime.value == rows[i].time
  {
    PrefixOfPrefix(rows, i + 1);
  }

  /**
   * Closed form of the pending state: a session is pending after the first
   * `i` rows exactly when they end in an odd run of "exited FROM" rows, and it
   * then holds the time of the last of them.
   */
  lemma {:induction false} PendingIsOddExitRun(fromLoc: string, toLoc: string, rows: seq<Row>, i: nat)
    requires i <= |rows|
    ensures Run(fromLoc, toLoc, rows[..i]).exitedTime
            == if i > 0 && ExitRun(fromLoc, rows, i) % 2 == 1 then Some(rows[i - 1].time) else None
  {
    if i > 0 {
      PendingIsOddExitRun(fromLoc, toLoc, rows, i - 1);
      PendingAfterRow(fromLoc, toLoc, rows, i - 1);
    }
  }

  lemma {:induction false} RunIsPairDurations(fromLoc: string, toLoc: string, rows: seq<Row>, n: nat)
    requires n <= |rows|
    ensures Run(fromLoc, toLoc, rows[..n]).commuteTimes == PairDurations(fromLoc, toLoc, rows, n)
  {
    if n > 0 {
      RunIsPairDurations(fromLoc, toLoc, rows, n - 1);
      PendingIsOddExitRun(fromLoc, toLoc, rows, n - 1);
      PrefixOfPrefix(rows, n);
    }
  }

  /**
   * Every emitted duration comes from an adjacent pair of rows (j - 1, j),
   * where row j - 1 opened a session and row j is "entered TO", and the
   * durations appear in the order of those pairs in the input.
   */
  lemma CommuteTimesArePairDurations(fromLoc: string, toLoc: string, rows: seq<Row>)
    ensures CommuteTimes(fromLoc, toLoc, rows) == PairDurations(fromLoc, toLoc, rows, |rows|)
  {
    RunIsPairDurations(fromLoc, toLoc, rows, |rows|);
    assert rows[..|rows|] == rows;
  }

  /** A pair that closes a commute starts with an "exited FROM" row. */
  lemma CommuteEndFollowsExit(fromLoc: string, toLoc: string, rows: seq<Row>, j: nat)
    requires j < |rows| && IsCommuteEnd(fromLoc, toLoc, rows, j)
    ensures 0 < j && IsExitedRow(fromLoc, rows[j - 1]) && IsEnteredRow(toLoc, rows[j])
  {
  }

  /**
   * There are never more durations than "exited FROM" rows; a pending session
   * uses up one of them as well.
   */
  lemma {:induction false} CountBound(fromLoc: string, toLoc: string, rows: seq<Row>)
    ensures |Run(fromLoc, toLoc, rows).commuteTimes|
            + (if Run(fromLoc, toLoc, rows).exitedTime.Some? then 1 else 0)
            <= ExitCount(fromLoc, rows)
    ensures |CommuteTimes(fromLoc, toLoc, rows)| <= ExitCount(fromLoc, rows)
    decreases |rows|
  {
    if rows != [] {
      CountBound(fromLoc, toLoc, rows[..|rows| - 1]);
    }
  }

  /** Without an "exited FROM" row no session ever opens and nothing is emitted. */
  lemma {:induction false} NoExitNoCommute(fromLoc: string, toLoc: string, rows: seq<Row>)
    requires forall k :: 0 <= k < |rows| ==> !IsExitedRow(fromLoc, rows[k])
    ensures Run(fromLoc, toLoc, rows).exitedTime == None
    ensures CommuteTimes(fromLoc, toLoc, rows) == []
    decreases |rows|
  {
    if rows != [] {
      NoExitNoCommute(fromLoc, toLoc, rows[..|rows| - 1]);
    }
  }

  /** Rows appended later never change the durations already emitted. */
  lemma {:induction false} AppendOnly(fromLoc: string, toLoc: string, rows: seq<Row>, more: seq<Row>)
    ensures CommuteTimes(fromLoc, toLoc, rows) <= CommuteTimes(fromLoc, toLoc, rows + more)
    decreases |more|
  {
    if more != [] {
      var init := more[..|more| - 1];
      assert (rows + more)[..|rows + more| - 1] == rows + init;
      AppendOnly(fromLoc, toLoc, rows, init);
      assert Run(fromLoc, toLoc, rows + more)
             == Step(fromLoc, toLoc, Run(fromLoc, toLoc, rows + init), more[|more| - 1]);
    } else {
      assert rows + more == rows;
    }
  }

  lemma LastStep(fromLoc: string, toLoc: string, rows: seq<Row>, row: Row)
    ensures Run(fromLoc, toLoc, rows + [row]) == Step(fromLoc, toLoc, Run(fromLoc, toLoc, rows), row)
  {
    assert (rows + [row])[..|rows|] == rows;
  }

  /**
   * Any row that is neither "exited FROM" nor "entered TO", appended to any
   * log, clears the pending exit and leaves the durations as they were.
   */
  lemma OtherRowResets(fromLoc: string, toLoc: string, rows: seq<Row>, row: Row)
    requires !IsExitedRow(fromLoc, row) && !IsEnteredRow(toLoc, row)
    ensures Run(fromLoc, toLoc, rows + [row]) == State(None, CommuteTimes(fromLoc, toLoc, rows))
  {
    LastStep(fromLoc, toLoc, rows, row);
  }

  /**
   * The match is exact: a row whose action is neither "exited" nor "entered"
   * (such as "Exited") matches neither predicate, whatever its location, and
   * appended to any log it only clears the pending exit.
   */
  lemma UnknownActionMatchesNeither(fromLoc: string, toLoc: string, rows: seq<Row>, row: Row)
    requires row.action != "exited" && row.action != "entered"
    ensures !IsExitedLocation(fromLoc, row.action, row.location)
    ensures !IsEnteredLocation(toLoc, row.action, row.location)
    ensures Run(fromLoc, toLoc, rows + [row]) == State(None, CommuteTimes(fromLoc, toLoc, rows))
  {
    OtherRowResets(fromLoc, toLoc, rows, row);
  }

  /**
   * An "exited FROM" row that arrives while a session is pending cancels the
   * session: nothing is pending afterwards and no duration is added.
   */
  lemma ExitWhilePendingCancels(fromLoc: string, toLoc: string, rows: seq<Row>, row: Row)
    requires Run(fromLoc, toLoc, rows).exitedTime.Some? && IsExitedRow(fromLoc, row)
    ensures Run(fromLoc, toLoc, rows + [row]) == State(None, CommuteTimes(fromLoc, toLoc, rows))
  {
    LastStep(fromLoc, toLoc, rows, row);
  }

  /** `[exited FROM t0, entered TO t1]` gives exactly one duration. */
  lemma SingleCommute(fromLoc: string, toLoc: string, t0: int, t1: int)
    ensures CommuteTimes(fromLoc, toLoc, [Row("exited", t0, fromLoc), Row("entered", t1, toLoc)])
            == [(t1 - t0) % SecondsPerDay]
    ensures 0 <= t1 - t0 < SecondsPerDay ==>
              CommuteTimes(fromLoc, toLoc, [Row("exited", t0, fromLoc), Row("entered", t1, toLoc)])
              == [t1 - t0]
  {
    var rows := [Row("exited", t0, fromLoc), Row("entered", t1, toLoc)];
    assert rows[..1] == [rows[0]];
    assert [rows[0]][..0] == [];
    assert Run(fromLoc, toLoc, [rows[0]]) == State(Some(t0), []);
  }

  /** `[exited FROM, exited FROM, entered TO]` gives nothing: both exits are lost. */
  lemma DoubleExitGivesNothing(fromLoc: string, toLoc: string, t0: int, t1: int, t2: int)
    ensures CommuteTimes(fromLoc, toLoc,
              [Row("exited", t0, fromLoc), Row("exited", t1, fromLoc), Row("entered", t2, toLoc)])
            == []
  {
    var rows := [Row("exited", t0, fromLoc), Row("exited", t1, fromLoc), Row("entered", t2, toLoc)];
    assert rows[..2] == [rows[0], rows[1]];
    assert [rows[0], rows[1]][..1] == [rows[0]];
    assert [rows[0]][..0] == [];
    assert Run(fromLoc, toLoc, [rows[0]]) == State(Some(t0), []);
    assert Run(fromLoc, toLoc, [rows[0], rows[1]]) == State(None, []);
  }

  /** `[exited FROM, entered OTHER, entered TO]` gives nothing: the entry elsewhere resets. */
  lemma InterveningRowGivesNothing(fromLoc: string, toLoc: string, other: string, t0: int, t1: int, t2: int)
    requires other != toLoc
    ensures CommuteTimes(fromLoc, toLoc,
              [Row("exited", t0, fromLoc), Row("entered", t1, other), Row("entered", t2, toLoc)])
            == []
  {
    var rows := [Row("exited", t0, fromLoc), Row("entered", t1, other), Row("entered", t2, toLoc)];
    assert rows[..2] == [rows[0], rows[1]];
    assert [rows[0], rows[1]][..1] == [rows[0]];
    assert [rows[0]][..0] == [];
    assert Run(fromLoc, toLoc, [rows[0]]) == State(Some(t0), []);
    assert Run(fromLoc, toLoc, [rows[0], rows[1]]) == State(None, []);
  }

  /**
   * Rows out of chronological order are processed as given, and the duration
   * does not come out negative: it wraps around to the previous day.
   */
  lemma OutOfOrderWraps(fromLoc: string, toLoc: string, t0: int, t1: int)
    requires t1 < t0 < t1 + SecondsPerDay
    ensures CommuteTimes(fromLoc, toLoc, [Row("exited", t0, fromLoc), Row("entered", t1, toLoc)])
            == [SecondsPerDay - (t0 - t1)]
  {
    SingleCommute(fromLoc, toLoc, t0, t1);
  }
}
