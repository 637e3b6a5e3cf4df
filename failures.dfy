/**
 * The consecutive-failure counter. A failed run at the clock reading
 * "04:00" is ignored; any other failed run loads the stored count (0 when it
 * cannot be read), saves it incremented, and when the new count reaches the
 * grace threshold alerts the owner and saves 0. A successful run saves 0.
 * Saves are best effort: when the store does not accept the write, the
 * stored value stays what it was.
 */
module Failures {
  import opened Wrappers

  /** The daily clock reading at which the portal is known to be down. */
  const ExemptClock: string := "04:00"

  /** The stored counter after an attempt to save `count`. */
  function SaveCount(stored: Option<int>, writable: bool, count: int): Option<int> {
    if writable then Some(count) else stored
  }

  /** What one failed run leaves in the store, and whether it alerts. */
  datatype Tally = Tally(stored: Option<int>, alert: bool)

  function AfterFailure(stored: Option<int>, writable: bool, clock: string, grace: int): (t: Tally)
    ensures clock == ExemptClock ==> t == Tally(stored, false)
    ensures clock != ExemptClock ==> (t.alert <==> stored.GetOr(0) + 1 >= grace)
    ensures clock != ExemptClock && writable ==>
      t.stored == Some(if t.alert then 0 else stored.GetOr(0) + 1)
    ensures !writable ==> t.stored == stored
  {
    if clock == ExemptClock then Tally(stored, false)
    else
      var count := stored.GetOr(0) + 1;
      var saved := SaveCount(stored, writable, count);
      if count >= grace then Tally(SaveCount(saved, writable, 0), true)
      else Tally(saved, false)
  }

  function AfterSuccess(stored: Option<int>, writable: bool): Option<int> {
    SaveCount(stored, writable, 0)
  }

  /** The store and the alerts after a series of failed runs. */
  datatype History = History(stored: Option<int>, alerts: seq<bool>)

  function FailureRuns(stored: Option<int>, writable: bool, clocks: seq<string>, grace: int): (h: History)
    ensures |h.alerts| == |clocks|
    decreases |clocks|
  {
    if clocks == [] then History(stored, [])
    else
      var t := AfterFailure(stored, writable, clocks[0], grace);
      var rest := FailureRuns(t.stored, writable, clocks[1..], grace);
      History(rest.stored, [t.alert] + rest.alerts)
  }

  lemma {:induction false} FailureRunsAppend(stored: Option<int>, writable: bool, a: seq<string>, b: seq<string>, grace: int)
    ensures var ha := FailureRuns(stored, writable, a, grace);
            var hb := FailureRuns(ha.stored, writable, b, grace);
            FailureRuns(stored, writable, a + b, grace) == History(hb.stored, ha.alerts + hb.alerts)
    decreases |a|
  {
    if a == [] {
      assert a + b == b;
    } else {
      assert (a + b)[1..] == a[1..] + b;
      var t := AfterFailure(stored, writable, a[0], grace);
      FailureRunsAppend(t.stored, writable, a[1..], b, grace);
      var ha := FailureRuns(t.stored, writable, a[1..], grace);
      assert [t.alert] + (ha.alerts + FailureRuns(ha.stored, writable, b, grace).alerts)
          == ([t.alert] + ha.alerts) + FailureRuns(ha.stored, writable, b, grace).alerts;
    }
  }

  /** Failures at the exempt clock neither change the store nor alert. */
  lemma {:induction false} ExemptFailuresChangeNothing(stored: Option<int>, writable: bool, clocks: seq<string>, grace: int)
    requires forall i :: 0 <= i < |clocks| ==> clocks[i] == ExemptClock
    ensures FailureRuns(stored, writable, clocks, grace).stored == stored
    ensures forall i :: 0 <= i < |clocks| ==> !FailureRuns(stored, writable, clocks, grace).alerts[i]
    decreases |clocks|
  {
    if clocks != [] {
      ExemptFailuresChangeNothing(stored, writable, clocks[1..], grace);
    }
  }

  /**
   * Starting from count `c`, fewer than `grace - c` failures at other clocks
   * stay silent and leave the count raised by their number.
   */
  lemma {:induction false} QuietBelowGrace(stored: Option<int>, clocks: seq<string>, grace: int)
    requires forall i :: 0 <= i < |clocks| ==> clocks[i] != ExemptClock
    requires stored.GetOr(0) + |clocks| < grace
    ensures forall i :: 0 <= i < |clocks| ==> !FailureRuns(stored, true, clocks, grace).alerts[i]
    ensures clocks != [] ==> FailureRuns(stored, true, clocks, grace).stored == Some(stored.GetOr(0) + |clocks|)
    decreases |clocks|
  {
    if clocks != [] {
      var t := AfterFailure(stored, true, clocks[0], grace);
      QuietBelowGrace(t.stored, clocks[1..], grace);
    }
  }

  /**
   * From count 0, `grace` consecutive failures at other clocks alert on the
   * last one only, and leave the count at 0.
   */
  lemma AlertAtGrace(stored: Option<int>, clocks: seq<string>, grace: int)
    requires stored.GetOr(0) == 0 && grace >= 1 && |clocks| == grace
    requires forall i :: 0 <= i < |clocks| ==> clocks[i] != ExemptClock
    ensures forall i :: 0 <= i < grace - 1 ==> !FailureRuns(stored, true, clocks, grace).alerts[i]
    ensures FailureRuns(stored, true, clocks, grace).alerts[grace - 1]
    ensures FailureRuns(stored, true, clocks, grace).stored == Some(0)
  {
    var init := clocks[..grace - 1];
    var last := clocks[grace - 1];
    assert clocks == init + [last];
    QuietBelowGrace(stored, init, grace);
    FailureRunsAppend(stored, true, init, [last], grace);
    var hi := FailureRuns(stored, true, init, grace);
    assert hi.stored.GetOr(0) == grace - 1;
  }

  /**
   * With the default threshold 3: silent, silent, alert, and the count back
   * at 0; a following success keeps it at 0.
   */
  lemma ThreeFailuresWithDefaultGrace()
    ensures FailureRuns(None, true, ["10:00", "10:15", "10:30"], 3) == History(Some(0), [false, false, true])
    ensures AfterSuccess(FailureRuns(None, true, ["10:00", "10:15", "10:30"], 3).stored, true) == Some(0)
  {
  }

  /** A threshold of 1 or below alerts on every failure outside the exempt clock. */
  lemma LowGraceAlwaysAlerts(stored: Option<int>, writable: bool, clock: string, grace: int)
    requires grace <= 1 && clock != ExemptClock && stored.GetOr(0) >= 0
    ensures AfterFailure(stored, writable, clock, grace).alert
  {
  }
}
