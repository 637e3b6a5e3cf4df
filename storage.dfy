/**
 * The per-user files in the marks directory, as a key-value store: the
 * pickled baseline of marks and the pickled failure count. `writable` says
 * whether the directory accepts writes.
 */
module Storage {
  import opened Wrappers
  import opened Records

  /** What opening and unpickling the baseline file gives. */
  datatype Snapshot =
    | NoFile            // the file cannot be opened (`OSError`)
    | Saved(marks: Marks)
    | Unreadable        // the file opens but does not unpickle to marks

  /** The whole stored state of one user. */
  datatype Disk = Disk(baseline: Snapshot, failures: Option<int>, writable: bool)

  class Store {
    var baseline: Snapshot
    /** The unpickled failure count, or `None` when the file cannot be read. */
    var failures: Option<int>
    var writable: bool

    constructor (baseline: Snapshot, failures: Option<int>, writable: bool)
      ensures State() == Disk(baseline, failures, writable)
    {
      this.baseline := baseline;
      this.failures := failures;
      this.writable := writable;
    }

    function State(): Disk
      reads this
    {
      Disk(baseline, failures, writable)
    }

    /** The stored count, 0 when it cannot be read. */
    method LoadFailureCount() returns (count: int)
      ensures failures.Some? ==> count == failures.value
      ensures failures.None? ==> count == 0
    {
      count := failures.GetOr(0);
    }

    /** Best effort: a write the store refuses is dropped silently. */
    method SaveFailureCount(count: int)
      modifies this
      ensures failures == (if old(writable) then Some(count) else old(failures))
      ensures baseline == old(baseline) && writable == old(writable)
    {
      if writable {
        failures := Some(count);
      }
    }

    method LoadBaseline() returns (s: Snapshot)
      ensures s == baseline
    {
      s := baseline;
    }

    /** A refused write is reported (`ok` is false) rather than dropped. */
    method SaveBaseline(marks: Marks) returns (ok: bool)
      modifies this
      ensures ok == old(writable)
      ensures baseline == (if ok then Saved(marks) else old(baseline))
      ensures failures == old(failures) && writable == old(writable)
    {
      ok := writable;
      if ok {
        baseline := Saved(marks);
      }
    }
  }
}
