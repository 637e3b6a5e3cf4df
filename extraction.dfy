/**
 * Turning the rows of the grades table into the `marks` dict. The header
 * and footer rows are dropped, short rows and rows with a small id are
 * skipped, the kind and status codes are decoded, and the result is keyed by
 * unit name with later rows overwriting earlier ones.
 */
module Extraction {
  import opened Wrappers
  import opened Records
  import opened Codes
  import opened IntText

  /** One table row: the texts of its cells. */
  type Row = seq<string>

  /** Rows whose id in cell 0 is below this are structural rows, not units. */
  const MinId: int := 9999

  /** Rows with this many cells or fewer are skipped. */
  const MaxSkippedCells: nat := 4

  /** What the extraction loop does with one row. */
  datatype Verdict = Skip | Keep(name: string, entry: Entry) | Reject(message: string)

  /** The longest repr of the offending text that the `int()` error message keeps. */
  const MaxReprInError: nat := 200

  /**
   * The message of the ValueError that `int(text)` raises: a fixed prefix and
   * the quoted text, cut to its first 200 characters.
   */
  function IntError(text: string): (m: string)
    ensures |m| <= |"invalid literal for int() with base 10: "| + MaxReprInError
    ensures |text| + 2 <= MaxReprInError ==> m == "invalid literal for int() with base 10: '" + text + "'"
  {
    var quoted := "'" + text + "'";
    "invalid literal for int() with base 10: " + (if |quoted| > MaxReprInError then quoted[..MaxReprInError] else quoted)
  }

  function Classify(row: Row): Verdict {
    if |row| <= MaxSkippedCells then Skip
    else match ParseInt(row[0])
      case None => Reject(IntError(row[0]))
      case Some(id) =>
        if id < MinId then Skip
        else Keep(row[1], Entry(row[3], Decode(ArtCodes, row[2]), Decode(StatusCodes, row[4])))
  }

  /** The verdict keeps a row under the unit name `name`. */
  predicate KeepsName(v: Verdict, name: string) {
    v.Keep? && v.name == name
  }

  /** The row is kept, under the unit name `name`. */
  predicate Keeps(row: Row, name: string) {
    KeepsName(Classify(row), name)
  }

  /** `rows[1:-1]`: every row but the first and the last. */
  function Body(rows: seq<Row>): (b: seq<Row>)
    ensures |rows| >= 2 ==> |b| == |rows| - 2
    ensures |rows| < 2 ==> b == []
    ensures forall i :: 0 <= i < |b| ==> b[i] == rows[i + 1]
  {
    if |rows| <= 2 then [] else rows[1..|rows| - 1]
  }

  /** One step of the extraction loop on the dict built so far. */
  function Step(acc: Result<Marks, string>, v: Verdict): (r: Result<Marks, string>)
    requires acc.Ok? ==> Valid(acc.value)
    ensures r.Ok? ==> Valid(r.value)
  {
    match acc
    case Err(msg) => Err(msg)
    case Ok(d) =>
      match v
      case Skip => Ok(d)
      case Reject(msg) => Err(msg)
      case Keep(name, e) =>
        PutSemantics(d, name, e);
        Ok(Put(d, name, e))
  }

  /** The loop run over a sequence of verdicts, from the empty dict. */
  function Fold(vs: seq<Verdict>): (r: Result<Marks, string>)
    ensures r.Ok? ==> Valid(r.value)
    decreases |vs|
  {
    if vs == [] then Ok(Empty) else Step(Fold(vs[..|vs| - 1]), vs[|vs| - 1])
  }

  function Verdicts(rows: seq<Row>): (vs: seq<Verdict>)
    ensures |vs| == |rows|
    ensures forall i :: 0 <= i < |rows| ==> vs[i] == Classify(rows[i])
  {
    seq(|rows|, i requires 0 <= i < |rows| => Classify(rows[i]))
  }

  /**
   * The dict the loop has built after the given rows, or the message of
   * the first row whose id is not a number.
   */
  function Scan(rows: seq<Row>): (r: Result<Marks, string>)
    ensures r.Ok? ==> Valid(r.value)
  {
    Fold(Verdicts(rows))
  }

  lemma FoldSnoc(vs: seq<Verdict>, v: Verdict)
    ensures Fold(vs + [v]) == Step(Fold(vs), v)
  {
    assert (vs + [v])[..|vs|] == vs;
  }

  /** Once a prefix has failed, the whole fold fails with the same message. */
  lemma {:induction false} FoldErrorSticks(vs: seq<Verdict>, k: nat)
    requires k <= |vs| && Fold(vs[..k]).Err?
    ensures Fold(vs) == Fold(vs[..k])
    decreases |vs| - k
  {
    if k < |vs| {
      assert vs[..k + 1] == vs[..k] + [vs[k]];
      FoldSnoc(vs[..k], vs[k]);
      FoldErrorSticks(vs, k + 1);
    } else {
      assert vs[..k] == vs;
    }
  }

  /** The scan of one more row, in the terms of the extraction loop. */
  lemma RowStep(body: seq<Row>, i: nat)
    requires i < |body|
    ensures Scan(body[..i + 1]) == Step(Scan(body[..i]), Classify(body[i]))
    ensures Scan(body[..i]).Err? ==> Scan(body) == Scan(body[..i])
  {
    var vs := Verdicts(body[..i]);
    assert Verdicts(body[..i + 1]) == vs + [Classify(body[i])];
    FoldSnoc(vs, Classify(body[i]));
    if Scan(body[..i]).Err? {
      assert Verdicts(body)[..i] == vs;
      FoldErrorSticks(Verdicts(body), i);
    }
  }

  /** The extraction loop of the watcher over the table rows. */
  method ExtractMarks(rows: seq<Row>) returns (r: Result<Marks, string>)
    ensures r == Scan(Body(rows))
  {
    var body := Body(rows);
    var marks := Empty;
    var i := 0;
    while i < |body|
      invariant 0 <= i <= |body|
      invariant Scan(body[..i]) == Ok(marks)
    {
      var tds := body[i];
      RowStep(body, i);
      if |tds| > MaxSkippedCells {
        var id := ParseInt(tds[0]);
        if id.None? {
          if i + 1 < |body| {
            RowStep(body, i + 1);
          } else {
            assert body[..i + 1] == body;
          }
          return Err(IntError(tds[0]));
        }
        if id.value >= MinId {
          var name := tds[1];
          var art := Decode(ArtCodes, tds[2]);
          var mark := tds[3];
          var status := Decode(StatusCodes, tds[4]);
          marks := Put(marks, name, Entry(mark, art, status));
        }
      }
      i := i + 1;
    }
    assert body[..i] == body;
    return Ok(marks);
  }

  /** The fold fails exactly when some verdict is a rejection. */
  lemma {:induction false} FoldFailsIff(vs: seq<Verdict>)
    ensures Fold(vs).Err? <==> exists i :: 0 <= i < |vs| && vs[i].Reject?
  {
    if vs != [] {
      var init := vs[..|vs| - 1];
      assert vs == init + [vs[|vs| - 1]];
      FoldSnoc(init, vs[|vs| - 1]);
      FoldFailsIff(init);
      if exists i :: 0 <= i < |init| && init[i].Reject? {
        var i :| 0 <= i < |init| && init[i].Reject?;
        assert vs[i] == init[i];
      }
      if exists i :: 0 <= i < |vs| && vs[i].Reject? {
        var i :| 0 <= i < |vs| && vs[i].Reject?;
        if i < |init| {
          assert init[i] == vs[i];
        }
      }
    }
  }

  /** The scan fails exactly when some row has an id that is not a number. */
  lemma ScanFailsIff(rows: seq<Row>)
    ensures Scan(rows).Err? <==> exists i :: 0 <= i < |rows| && Classify(rows[i]).Reject?
  {
    var vs := Verdicts(rows);
    FoldFailsIff(vs);
    assert forall i :: 0 <= i < |rows| ==> vs[i] == Classify(rows[i]);
  }

  /** The failure message is that of the first rejected row. */
  lemma ScanFailsAtFirstReject(rows: seq<Row>, k: nat)
    requires k < |rows| && Classify(rows[k]).Reject?
    requires forall j :: 0 <= j < k ==> !Classify(rows[j]).Reject?
    ensures Scan(rows) == Err(Classify(rows[k]).message)
  {
    var vs := Verdicts(rows);
    var prefix := vs[..k];
    FoldFailsIff(prefix);
    assert vs[..k + 1] == prefix + [vs[k]];
    FoldSnoc(prefix, vs[k]);
    FoldErrorSticks(vs, k + 1);
  }

  /** A name is in the fold's dict exactly when some verdict keeps it. */
  lemma {:induction false} FoldNames(vs: seq<Verdict>, name: string)
    requires Fold(vs).Ok?
    ensures name in Fold(vs).value.entries <==> exists i :: 0 <= i < |vs| && KeepsName(vs[i], name)
  {
    if vs != [] {
      var init := vs[..|vs| - 1];
      var last := vs[|vs| - 1];
      assert vs == init + [last];
      FoldSnoc(init, last);
      FoldNames(init, name);
      if exists i :: 0 <= i < |init| && KeepsName(init[i], name) {
        var i :| 0 <= i < |init| && KeepsName(init[i], name);
        assert vs[i] == init[i];
      }
      if exists i :: 0 <= i < |vs| && KeepsName(vs[i], name) {
        var i :| 0 <= i < |vs| && KeepsName(vs[i], name);
        if i < |init| {
          assert init[i] == vs[i];
        }
      }
    }
  }

  /** A name is in the result exactly when some row keeps it. */
  lemma ScanNames(rows: seq<Row>, name: string)
    requires Scan(rows).Ok?
    ensures name in Scan(rows).value.entries <==> exists i :: 0 <= i < |rows| && Keeps(rows[i], name)
  {
    var vs := Verdicts(rows);
    FoldNames(vs, name);
    if exists i :: 0 <= i < |rows| && Keeps(rows[i], name) {
      var i :| 0 <= i < |rows| && Keeps(rows[i], name);
      assert vs[i] == Classify(rows[i]);
    }
    if exists i :: 0 <= i < |vs| && KeepsName(vs[i], name) {
      var i :| 0 <= i < |vs| && KeepsName(vs[i], name);
      assert vs[i] == Classify(rows[i]);
    }
  }

  /**
   * Keys are listed in the order in which verdicts first keep them: some
   * verdict keeps the earlier key before any verdict keeps the later one.
   */
  lemma {:induction false} FoldOrder(vs: seq<Verdict>, p: nat, q: nat)
    requires Fold(vs).Ok? && p < q < |Fold(vs).value.names|
    ensures exists i :: 0 <= i < |vs| && KeepsName(vs[i], Fold(vs).value.names[p])
              && forall j :: 0 <= j <= i ==> !KeepsName(vs[j], Fold(vs).value.names[q])
    decreases |vs|
  {
    var init := vs[..|vs| - 1];
    var last := vs[|vs| - 1];
    assert vs == init + [last];
    FoldSnoc(init, last);
    var d := Fold(init).value;
    var names := Fold(vs).value.names;
    if last.Keep? {
      PutSemantics(d, last.name, last.entry);
    }
    var isNew := last.Keep? && last.name !in d.entries;
    assert isNew ==> names == d.names + [last.name];
    assert !isNew ==> names == d.names;
    var kp := names[p];
    var kq := names[q];
    if q < |d.names| {
      assert kp == d.names[p] && kq == d.names[q];
      FoldOrder(init, p, q);
      var i :| 0 <= i < |init| && KeepsName(init[i], kp) && forall j :: 0 <= j <= i ==> !KeepsName(init[j], kq);
      assert forall j :: 0 <= j <= i ==> vs[j] == init[j];
    } else {
      assert isNew && kq == last.name && kp == d.names[p];
      FoldNames(init, kp);
      FoldNames(init, kq);
      var i :| 0 <= i < |init| && KeepsName(init[i], kp);
      assert forall j :: 0 <= j <= i ==> vs[j] == init[j];
    }
  }

  /**
   * The dict lists its keys in the order in which rows first bring them:
   * some row keeps the earlier key before any row keeps the later one.
   */
  lemma ScanOrder(rows: seq<Row>, p: nat, q: nat)
    requires Scan(rows).Ok? && p < q < |Scan(rows).value.names|
    ensures exists i :: 0 <= i < |rows| && Keeps(rows[i], Scan(rows).value.names[p])
              && forall j :: 0 <= j <= i ==> !Keeps(rows[j], Scan(rows).value.names[q])
  {
    var vs := Verdicts(rows);
    FoldOrder(vs, p, q);
    var names := Scan(rows).value.names;
    var i :| 0 <= i < |vs| && KeepsName(vs[i], names[p]) && forall j :: 0 <= j <= i ==> !KeepsName(vs[j], names[q]);
    assert Keeps(rows[i], names[p]);
    assert forall j :: 0 <= j <= i ==> vs[j] == Classify(rows[j]);
  }

  /** The entry of a name comes from the last verdict that keeps that name. */
  lemma {:induction false} FoldLastWins(vs: seq<Verdict>, j: nat)
    requires Fold(vs).Ok? && j < |vs| && vs[j].Keep?
    requires forall k :: j < k < |vs| ==> !KeepsName(vs[k], vs[j].name)
    ensures vs[j].name in Fold(vs).value.entries
    ensures Fold(vs).value.entries[vs[j].name] == vs[j].entry
  {
    var init := vs[..|vs| - 1];
    var last := vs[|vs| - 1];
    assert vs == init + [last];
    FoldSnoc(init, last);
    if j < |init| {
      assert init[j] == vs[j];
      FoldLastWins(init, j);
    }
  }

  /** The entry of a name comes from the last row that keeps that name. */
  lemma ScanLastRowWins(rows: seq<Row>, j: nat)
    requires Scan(rows).Ok? && j < |rows| && Classify(rows[j]).Keep?
    requires forall k :: j < k < |rows| ==> !Keeps(rows[k], Classify(rows[j]).name)
    ensures Classify(rows[j]).name in Scan(rows).value.entries
    ensures Scan(rows).value.entries[Classify(rows[j]).name] == Classify(rows[j]).entry
  {
    var vs := Verdicts(rows);
    assert forall k :: j < k < |rows| ==> vs[k] == Classify(rows[k]);
    FoldLastWins(vs, j);
  }

  /**
   * A row of at least five cells whose id cell is the decimal text of `id`
   * is kept exactly when `id >= 9999`, and then all its fields are read.
   */
  lemma ClassifyById(row: Row, id: int)
    requires |row| > MaxSkippedCells && row[0] == ShowInt(id)
    ensures Classify(row).Keep? <==> id >= MinId
    ensures !Classify(row).Reject?
    ensures id >= MinId ==>
      Classify(row) == Keep(row[1], Entry(row[3], Decode(ArtCodes, row[2]), Decode(StatusCodes, row[4])))
  {
    ParseShow(id);
  }

  /** The boundary of the id filter: 9999 is the first id kept. */
  lemma ClassifyIdBoundary()
    ensures Classify(["9999", "A", "GE", "1.0", "BE"]).Keep?
    ensures Classify(["9998", "A", "GE", "1.0", "BE"]) == Skip
  {
    ClassifyById(["9999", "A", "GE", "1.0", "BE"], 9999);
    ClassifyById(["9998", "A", "GE", "1.0", "BE"], 9998);
  }

  /** A four-cell row is skipped before its id is read, even when the id is text; in a five-cell row a text id is an error. */
  lemma ClassifyShortAndTextRows()
    ensures Classify(["10000", "A", "GE", "1.0"]) == Skip
    ensures Classify(["PNr", "A", "GE", "1.0"]) == Skip
    ensures Classify(["PNr", "A", "GE", "1.0", "BE"]) == Reject("invalid literal for int() with base 10: 'PNr'")
  {
  }

  /** A skipped row followed by a kept row gives just the kept record. */
  lemma ScanSkipThenKeep(a: Row, b: Row)
    requires Classify(a) == Skip && Classify(b).Keep?
    ensures Scan([a, b]) == Ok(Marks([Classify(b).name], map[Classify(b).name := Classify(b).entry]))
  {
    var v := Classify(b);
    assert Verdicts([a, b]) == [Skip] + [v];
    FoldSnoc([], Skip);
    assert [] + [Skip] == [Skip];
    assert Fold([Skip]) == Ok(Empty);
    FoldSnoc([Skip], v);
    assert Fold([Skip] + [v]) == Ok(Put(Empty, v.name, v.entry));
    assert Put(Empty, v.name, v.entry) == Marks([v.name], map[v.name := v.entry]);
  }

  /** A header, a structural row with id 5, one unit row and a footer. */
  const ExampleTable: seq<Row> := [
    ["PNr", "Name", "Art", "Note", "Status"],
    ["5", "Pflichtbereich", "KO", "", ""],
    ["10000", "X", "GE", "1.3", "BE"],
    ["Summe", "", "", "", ""]
  ]

  /** The example table gives exactly one record, with decoded kind and status. */
  lemma ExtractionExample()
    ensures Scan(Body(ExampleTable)) == Ok(Marks(["X"], map["X" := Entry("1.3", "Modul", "bestanden")]))
  {
    var r1 := ExampleTable[1];
    var r2 := ExampleTable[2];
    assert Body(ExampleTable) == [r1, r2];
    ClassifyById(r1, 5);
    ClassifyById(r2, 10000);
    DecodeExamples();
    ScanSkipThenKeep(r1, r2);
  }
}
