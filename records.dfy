/**
 * The records the watcher observes: one `Entry` per graded unit, and `Marks`,
 * a Python dict from unit name to entry. A dict remembers the order in which
 * its keys were first inserted, so it is modelled as the key order `names`
 * beside the key-to-value map `entries`.
 */
module Records {

  /** The tuple `(mark, art, status)` stored for one unit name. */
  datatype Entry = Entry(mark: string, art: string, status: string)

  datatype Marks = Marks(names: seq<string>, entries: map<string, Entry>)

  const Empty: Marks := Marks([], map[])

  /** No element of `s` occurs twice. */
  predicate Distinct(s: seq<string>) {
    forall i, j :: 0 <= i < j < |s| ==> s[i] != s[j]
  }

  /** The key order lists every key of the map exactly once. */
  ghost predicate Valid(d: Marks) {
    && Distinct(d.names)
    && forall n :: n in d.entries <==> n in d.names
  }

  /** `d[name] = e` */
  function Put(d: Marks, name: string, e: Entry): Marks {
    Marks(if name in d.entries then d.names else d.names + [name], d.entries[name := e])
  }

  /**
   * Python dict assignment: the value is replaced, a key already present
   * keeps its position and a new key goes last.
   */
  lemma PutSemantics(d: Marks, name: string, e: Entry)
    requires Valid(d)
    ensures Valid(Put(d, name, e))
    ensures Put(d, name, e).entries == d.entries[name := e]
    ensures name in d.entries ==> Put(d, name, e).names == d.names
    ensures name !in d.entries ==> Put(d, name, e).names == d.names + [name]
  {
  }

  /** In a sequence without repetitions, no element occurs before its own position. */
  lemma NotInPrefix(s: seq<string>, k: nat)
    requires Distinct(s) && k < |s|
    ensures s[k] !in s[..k]
  {
  }
}
