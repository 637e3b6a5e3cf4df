/**
 * The forward diff of the current marks against the stored baseline. A
 * missing baseline (`None`, the file could not be opened) makes every current
 * entry an update; otherwise a name is an update when the baseline lacks it or
 * holds a different `(mark, art, status)` tuple for it. Names only in the
 * baseline are never reported.
 */
module Diff {
  import opened Wrappers
  import opened Records

  predicate Changed(name: string, e: Entry, base: Option<map<string, Entry>>) {
    base.None? || name !in base.value || base.value[name] != e
  }

  /** The updates found among the first `k` current names. */
  function DiffUpTo(cur: Marks, k: nat, base: Option<map<string, Entry>>): Marks
    requires Valid(cur) && k <= |cur.names|
    decreases k
  {
    if k == 0 then Empty
    else
      var u := DiffUpTo(cur, k - 1, base);
      var name := cur.names[k - 1];
      if Changed(name, cur.entries[name], base) then Put(u, name, cur.entries[name]) else u
  }

  lemma {:induction false} DiffUpToValid(cur: Marks, k: nat, base: Option<map<string, Entry>>)
    requires Valid(cur) && k <= |cur.names|
    ensures Valid(DiffUpTo(cur, k, base))
  {
    if k > 0 {
      DiffUpToValid(cur, k - 1, base);
      var name := cur.names[k - 1];
      PutSemantics(DiffUpTo(cur, k - 1, base), name, cur.entries[name]);
    }
  }

  function Updates(cur: Marks, base: Option<map<string, Entry>>): (u: Marks)
    requires Valid(cur)
    ensures Valid(u)
  {
    DiffUpToValid(cur, |cur.names|, base);
    DiffUpTo(cur, |cur.names|, base)
  }

  /** The two diff loops of the watcher: with and without a baseline. */
  method DiffMarks(cur: Marks, base: Option<map<string, Entry>>) returns (updates: Marks)
    requires Valid(cur)
    ensures updates == Updates(cur, base)
  {
    updates := Empty;
    match base {
      case Some(oldMarks) =>
        for i := 0 to |cur.names|
          invariant updates == DiffUpTo(cur, i, base)
        {
          var key := cur.names[i];
          if key !in oldMarks || cur.entries[key] != oldMarks[key] {
            updates := Put(updates, key, cur.entries[key]);
          }
        }
      case None =>
        for i := 0 to |cur.names|
          invariant updates == DiffUpTo(cur, i, base)
        {
          var key := cur.names[i];
          updates := Put(updates, key, cur.entries[key]);
        }
    }
  }

  /** The updates are exactly the changed current entries, with their current values. */
  lemma {:induction false} DiffUpToEntries(cur: Marks, k: nat, base: Option<map<string, Entry>>)
    requires Valid(cur) && k <= |cur.names|
    ensures forall n :: n in DiffUpTo(cur, k, base).entries <==>
      (n in cur.names[..k] && Changed(n, cur.entries[n], base))
    ensures forall n :: n in DiffUpTo(cur, k, base).entries ==>
      DiffUpTo(cur, k, base).entries[n] == cur.entries[n]
  {
    if k > 0 {
      DiffUpToEntries(cur, k - 1, base);
      assert cur.names[..k] == cur.names[..k - 1] + [cur.names[k - 1]];
    }
  }

  /** `a` is `b` with some elements left out, the rest in the same order. */
  predicate Subsequence(a: seq<string>, b: seq<string>)
    decreases |b|
  {
    || a == []
    || (&& b != []
        && (|| (a[|a| - 1] == b[|b| - 1] && Subsequence(a[..|a| - 1], b[..|b| - 1]))
            || Subsequence(a, b[..|b| - 1])))
  }

  /** The updates are listed in the order of the current marks. */
  lemma {:induction false} DiffUpToOrder(cur: Marks, k: nat, base: Option<map<string, Entry>>)
    requires Valid(cur) && k <= |cur.names|
    ensures Subsequence(DiffUpTo(cur, k, base).names, cur.names[..k])
  {
    if k > 0 {
      var prev := DiffUpTo(cur, k - 1, base);
      var name := cur.names[k - 1];
      DiffUpToOrder(cur, k - 1, base);
      var b := cur.names[..k];
      assert b[..k - 1] == cur.names[..k - 1];
      var a := DiffUpTo(cur, k, base).names;
      if Changed(name, cur.entries[name], base) && name !in prev.entries {
        assert a == prev.names + [name];
        assert a[..|a| - 1] == prev.names && a[|a| - 1] == b[|b| - 1];
      } else {
        assert a == prev.names;
      }
    }
  }

  lemma UpdatesExact(cur: Marks, base: Option<map<string, Entry>>)
    requires Valid(cur)
    ensures forall n :: n in Updates(cur, base).entries <==>
      (n in cur.entries && Changed(n, cur.entries[n], base))
    ensures forall n :: n in Updates(cur, base).entries ==> Updates(cur, base).entries[n] == cur.entries[n]
    ensures Subsequence(Updates(cur, base).names, cur.names)
  {
    DiffUpToEntries(cur, |cur.names|, base);
    DiffUpToOrder(cur, |cur.names|, base);
    assert cur.names[..|cur.names|] == cur.names;
  }

  /**
   * With a baseline, a name is an update exactly when it is current and the
   * baseline lacks it or holds another tuple; names only in the baseline are
   * never reported.
   */
  lemma UpdatesAgainstBaseline(cur: Marks, base: map<string, Entry>, name: string)
    requires Valid(cur)
    ensures name in Updates(cur, Some(base)).entries <==>
      (name in cur.entries && (name !in base || base[name] != cur.entries[name]))
    ensures name in base && name !in cur.entries ==> name !in Updates(cur, Some(base)).entries
  {
    UpdatesExact(cur, Some(base));
  }

  /** Without a baseline every current entry is an update, in the same order. */
  lemma {:induction false} NoBaselineReportsAll(cur: Marks)
    requires Valid(cur)
    ensures Updates(cur, None) == cur
  {
    var k := |cur.names|;
    var u := DiffUpTo(cur, k, None);
    NamesWithoutBaseline(cur, k);
    assert cur.names[..k] == cur.names;
    DiffUpToEntries(cur, k, None);
    assert u.entries.Keys == cur.entries.Keys;
    assert u.entries == cur.entries;
  }

  lemma {:induction false} NamesWithoutBaseline(cur: Marks, k: nat)
    requires Valid(cur) && k <= |cur.names|
    ensures DiffUpTo(cur, k, None).names == cur.names[..k]
  {
    if k > 0 {
      var prev := DiffUpTo(cur, k - 1, None);
      var name := cur.names[k - 1];
      NamesWithoutBaseline(cur, k - 1);
      DiffUpToValid(cur, k - 1, None);
      NotInPrefix(cur.names, k - 1);
      assert name !in prev.entries;
      PutSemantics(prev, name, cur.entries[name]);
      PrefixSnoc(cur.names, k);
    }
  }

  lemma PrefixSnoc(s: seq<string>, k: nat)
    requires 0 < k <= |s|
    ensures s[..k] == s[..k - 1] + [s[k - 1]]
  {
  }

  /** Marks compared with themselves give no updates. */
  lemma {:induction false} SelfDiffIsEmpty(cur: Marks)
    requires Valid(cur)
    ensures Updates(cur, Some(cur.entries)) == Empty
  {
    SelfDiffUpTo(cur, |cur.names|);
  }

  lemma {:induction false} SelfDiffUpTo(cur: Marks, k: nat)
    requires Valid(cur) && k <= |cur.names|
    ensures DiffUpTo(cur, k, Some(cur.entries)) == Empty
  {
    if k > 0 {
      SelfDiffUpTo(cur, k - 1);
    }
  }

  /** Changing the entry of one name yields exactly that name as the update. */
  lemma OneChangedEntry(s: Marks, name: string, e: Entry)
    requires Valid(s) && name in s.entries && s.entries[name] != e
    ensures Updates(Put(s, name, e), Some(s.entries)) == Marks([name], map[name := e])
  {
    var cur := Put(s, name, e);
    var base := Some(s.entries);
    PutSemantics(s, name, e);
    OneChangedUpTo(s, name, e, |cur.names|);
    assert s.names[..|s.names|] == s.names;
    var u := Updates(cur, base);
    assert u.names == [name];
    DiffUpToValid(cur, |cur.names|, base);
    DiffUpToEntries(cur, |cur.names|, base);
    assert u.entries.Keys == {name};
    assert u.entries[name] == e;
    assert u.entries == map[name := e];
  }

  lemma {:induction false} OneChangedUpTo(s: Marks, name: string, e: Entry, k: nat)
    requires Valid(s) && name in s.entries && s.entries[name] != e
    requires k <= |Put(s, name, e).names|
    ensures DiffUpTo(Put(s, name, e), k, Some(s.entries)).names ==
      if name in s.names[..k] then [name] else []
  {
    var cur := Put(s, name, e);
    if k > 0 {
      OneChangedUpTo(s, name, e, k - 1);
      PrefixSnoc(s.names, k);
      var n := cur.names[k - 1];
      if n == name {
        NotInPrefix(s.names, k - 1);
        DiffUpToValid(cur, k - 1, Some(s.entries));
      } else {
        assert !Changed(n, cur.entries[n], Some(s.entries));
      }
    }
  }
}
