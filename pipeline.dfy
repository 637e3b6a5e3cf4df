/**
 * One run of the watcher for one user, after the browser has either reached
 * the grades table or failed: extract the marks, account for a failure or
 * reset the counter, diff against the baseline, persist and notify.
 */
module Pipeline {
  import opened Wrappers
  import opened Records
  import opened Extraction
  import opened Diff
  import opened Failures
  import opened Notify
  import opened Storage

  /** What the browser session produced: the table rows, or the message of the exception. */
  datatype Page = Table(rows: seq<Row>) | Broken(message: string)

  datatype Outcome =
    | Failed(alerted: bool)
    | NoUpdate
    | Updated(updates: Marks)
    | Crashed           // an exception escapes the run: unreadable baseline, or the baseline write failed

  /** The store after a run, the messages it sent, and how it ended. */
  datatype RunResult = RunResult(disk: Disk, sends: seq<Message>, outcome: Outcome)

  /** Everything inside the `try` block: navigation, then the extraction loop. */
  function Observe(page: Page): (r: Result<Marks, string>)
    ensures r.Ok? ==> Valid(r.value)
  {
    match page
    case Broken(msg) => Err(msg)
    case Table(rows) => Scan(Body(rows))
  }

  /** The baseline the diff compares against; `None` when the file cannot be opened. */
  function BaseOf(s: Snapshot): Option<map<string, Entry>>
    requires !s.Unreadable?
  {
    if s.Saved? then Some(s.marks.entries) else None
  }

  function RunSpec(disk: Disk, page: Page, clock: string, grace: int, owner: string, subscribers: seq<string>): RunResult {
    match Observe(page)
    case Err(msg) =>
      var t := AfterFailure(disk.failures, disk.writable, clock, grace);
      RunResult(disk.(failures := t.stored), if t.alert then [Message(owner, msg)] else [], Failed(t.alert))
    case Ok(marks) =>
      var reset := disk.(failures := AfterSuccess(disk.failures, disk.writable));
      if disk.baseline.Unreadable? then RunResult(reset, [], Crashed)
      else
        var u := Updates(marks, BaseOf(disk.baseline));
        if u.entries == map[] then RunResult(reset, [], NoUpdate)
        else if !disk.writable then RunResult(reset, [], Crashed)
        else RunResult(reset.(baseline := Saved(marks)),
                  FanOut(owner, subscribers, OwnerText(u), SubscriberText(u)), Updated(u))
  }

  /**
   * The `except` branch of a run: outside the exempt clock, count the
   * failure and, at the threshold, alert the owner and reset the count.
   */
  method CountFailure(store: Store, outbox: Outbox, message: string, clock: string, grace: int,
                      owner: string) returns (alerted: bool)
    modifies store, outbox
    ensures var t := AfterFailure(old(store.failures), old(store.writable), clock, grace);
            && store.State() == old(store.State()).(failures := t.stored)
            && outbox.sent == old(outbox.sent) + (if t.alert then [Message(owner, message)] else [])
            && alerted == t.alert
  {
    alerted := false;
    if clock != ExemptClock {
      var count := store.LoadFailureCount();
      count := count + 1;
      store.SaveFailureCount(count);
      if count >= grace {
        outbox.Send(owner, message);
        store.SaveFailureCount(0);
        alerted := true;
      }
    }
  }

  /** The body of the watcher's `main` from the extraction loop on. */
  method Run(store: Store, outbox: Outbox, page: Page, clock: string, grace: int,
             owner: string, subscribers: seq<string>) returns (outcome: Outcome)
    modifies store, outbox
    ensures var s := RunSpec(old(store.State()), page, clock, grace, owner, subscribers);
            store.State() == s.disk && outbox.sent == old(outbox.sent) + s.sends && outcome == s.outcome
  {
    var observed: Result<Marks, string>;
    match page {
      case Broken(msg) =>
        observed := Err(msg);
      case Table(rows) =>
        observed := ExtractMarks(rows);
    }
    if observed.Err? {
      var alerted := CountFailure(store, outbox, observed.error, clock, grace, owner);
      return Failed(alerted);
    }
    var marks := observed.value;
    store.SaveFailureCount(0);
    var snapshot := store.LoadBaseline();
    var base: Option<map<string, Entry>>;
    match snapshot {
      case Unreadable =>
        return Crashed;
      case NoFile =>
        base := None;
      case Saved(oldMarks) =>
        base := Some(oldMarks.entries);
    }
    var updates := DiffMarks(marks, base);
    if |updates.entries| == 0 {
      return NoUpdate;
    }
    var ok := store.SaveBaseline(marks);
    if !ok {
      return Crashed;
    }
    var ownerMsg, subscriberMsg := Compose(updates);
    Broadcast(outbox, owner, subscribers, ownerMsg, subscriberMsg);
    return Updated(updates);
  }

  /** A failed run never touches the baseline; at the exempt clock it changes nothing at all. */
  lemma FailureKeepsBaseline(disk: Disk, page: Page, clock: string, grace: int, owner: string, subscribers: seq<string>)
    requires Observe(page).Err?
    ensures RunSpec(disk, page, clock, grace, owner, subscribers).disk.baseline == disk.baseline
    ensures clock == ExemptClock ==>
      RunSpec(disk, page, clock, grace, owner, subscribers) == RunResult(disk, [], Failed(false))
    ensures RunSpec(disk, page, clock, grace, owner, subscribers).outcome.Failed?
  {
  }

  /** A run that reaches the table resets the counter, whatever its old value. */
  lemma SuccessResetsCounter(disk: Disk, page: Page, clock: string, grace: int, owner: string, subscribers: seq<string>)
    requires Observe(page).Ok? && disk.writable
    ensures RunSpec(disk, page, clock, grace, owner, subscribers).disk.failures == Some(0)
  {
  }

  /**
   * With a readable baseline and a writable store, the baseline is replaced
   * by the full current marks exactly when there are updates, and messages
   * are sent exactly then.
   */
  lemma PersistIffUpdates(disk: Disk, page: Page, clock: string, grace: int, owner: string, subscribers: seq<string>)
    requires Observe(page).Ok? && disk.writable && !disk.baseline.Unreadable?
    ensures var s := RunSpec(disk, page, clock, grace, owner, subscribers);
            var u := Updates(Observe(page).value, BaseOf(disk.baseline));
            && (s.disk.baseline == if u.entries != map[] then Saved(Observe(page).value) else disk.baseline)
            && (s.sends != [] <==> u.entries != map[])
  {
  }

  /** On the first run (no baseline file) every extracted entry is reported. */
  lemma FirstRunReportsAll(disk: Disk, rows: seq<Row>, clock: string, grace: int, owner: string, subscribers: seq<string>)
    requires Scan(Body(rows)).Ok? && Scan(Body(rows)).value.entries != map[]
    requires disk.writable && disk.baseline == NoFile
    ensures RunSpec(disk, Table(rows), clock, grace, owner, subscribers).outcome == Updated(Scan(Body(rows)).value)
  {
    NoBaselineReportsAll(Scan(Body(rows)).value);
  }

  /**
   * An update sends exactly `1 + |subscribers|` messages: the detailed one to
   * the owner, then the names-only one to each subscriber in list order.
   */
  lemma UpdateFanOut(disk: Disk, page: Page, clock: string, grace: int, owner: string, subscribers: seq<string>)
    requires RunSpec(disk, page, clock, grace, owner, subscribers).outcome.Updated?
    ensures var s := RunSpec(disk, page, clock, grace, owner, subscribers);
            var u := s.outcome.updates;
            && Valid(u)
            && |s.sends| == 1 + |subscribers|
            && s.sends[0] == Message(owner, OwnerText(u))
            && forall i :: 0 <= i < |subscribers| ==> s.sends[i + 1] == Message(subscribers[i], SubscriberText(u))
  {
  }

  /**
   * Two runs in a row on the same table: if the first did not crash, the
   * second sends nothing and leaves the baseline as the first left it.
   */
  lemma RerunIsQuiet(disk: Disk, rows: seq<Row>, clock1: string, clock2: string, grace: int,
                     owner: string, subscribers: seq<string>)
    requires Scan(Body(rows)).Ok?
    requires RunSpec(disk, Table(rows), clock1, grace, owner, subscribers).outcome != Crashed
    ensures var first := RunSpec(disk, Table(rows), clock1, grace, owner, subscribers);
            var second := RunSpec(first.disk, Table(rows), clock2, grace, owner, subscribers);
            && second.sends == []
            && second.outcome == NoUpdate
            && second.disk.baseline == first.disk.baseline
  {
    var marks := Scan(Body(rows)).value;
    var first := RunSpec(disk, Table(rows), clock1, grace, owner, subscribers);
    if first.outcome.Updated? {
      SelfDiffIsEmpty(marks);
    } else {
      assert first.disk.baseline == disk.baseline;
    }
  }

  /**
   * Three broken runs in a row with the default threshold 3, outside the
   * exempt clock and from no stored count: the first two send nothing, the
   * third sends its error message to the owner, and the count ends at 0.
   */
  lemma ThreeBrokenRuns(disk: Disk, m1: string, m2: string, m3: string, owner: string, subscribers: seq<string>)
    requires disk.writable && disk.failures.GetOr(0) == 0
    ensures var r1 := RunSpec(disk, Broken(m1), "10:00", 3, owner, subscribers);
            var r2 := RunSpec(r1.disk, Broken(m2), "10:15", 3, owner, subscribers);
            var r3 := RunSpec(r2.disk, Broken(m3), "10:30", 3, owner, subscribers);
            && r1.sends == [] && r2.sends == []
            && r3.sends == [Message(owner, m3)]
            && r3.disk == disk.(failures := Some(0))
  {
  }
}
