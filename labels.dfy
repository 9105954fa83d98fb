/** Label generation in `printLabels`: one label per assigned bottle cell and
    replica, variables first and rows within each variable, then the whole list
    reversed and joined with newlines into the payload sent to the printer. */
module Labels {
  import opened Wrappers
  import opened Text
  import opened Grid

  /** The session fields a label carries: survey name, cast text and station. */
  datatype Session = Session(survey: string, cast: string, station: string)

  /** The seven fields `createLabel` substitutes into its template. */
  datatype LabelRecord = LabelRecord(survey: string, cast: string, station: string, bottle: string,
                                     depth: string, obs: string, variable: string)

  /** How many labels one assigned cell yields: the replica count when above one,
      otherwise one. */
  function Copies(replicas: int): (n: nat)
    ensures n >= 1
    ensures replicas >= 1 ==> n == replicas
    ensures replicas <= 1 ==> n == 1
  {
    if replicas > 1 then replicas else 1
  }

  /** The variable designators on the labels of one cell: `NAME[:4]/k` for
      k = 1 .. r when there are r > 1 replicas, otherwise `NAME[:6]`. */
  function Designators(v: Variable): (ds: seq<string>)
    ensures |ds| == Copies(v.replicas)
  {
    if v.replicas > 1 then
      seq(v.replicas, k requires 0 <= k < v.replicas => Prefix(Upper(v.name), 4) + "/" + NatToString(k + 1))
    else [Prefix(Upper(v.name), 6)]
  }

  /** The replica labels of one cell are told apart by their designators. */
  lemma DesignatorsDistinct(v: Variable, i: nat, j: nat)
    requires i < j < |Designators(v)|
    ensures Designators(v)[i] != Designators(v)[j]
  {
    var p := Prefix(Upper(v.name), 4) + "/";
    var di, dj := Designators(v)[i], Designators(v)[j];
    assert di == p + NatToString(i + 1) && dj == p + NatToString(j + 1);
    if di == dj {
      assert di[|p|..] == NatToString(i + 1) && dj[|p|..] == NatToString(j + 1);
      NatToStringInjective(i + 1, j + 1);
    }
  }

  /** The label of row `r`, variable column `vi`, with the given designator. */
  function Record(s: Session, rows: seq<Row>, r: int, vi: int, designator: string): LabelRecord {
    LabelRecord(s.survey, s.cast, s.station, BottleText(rows, r, vi), DepthText(rows, r), ObsText(rows, r), designator)
  }

  /** The labels of one cell: none when its bottle is unassigned. */
  function CellLabels(s: Session, rows: seq<Row>, r: int, vi: int, v: Variable): (labels: seq<LabelRecord>)
    ensures |labels| == if BottleText(rows, r, vi) == "" then 0 else Copies(v.replicas)
  {
    if BottleText(rows, r, vi) == "" then []
    else seq(|Designators(v)|, k requires 0 <= k < |Designators(v)| => Record(s, rows, r, vi, Designators(v)[k]))
  }

  /** The labels of variable column `vi` over rows 0 .. n-1, in row order. */
  function ColumnLabels(s: Session, rows: seq<Row>, vi: int, v: Variable, n: nat): seq<LabelRecord> {
    if n == 0 then [] else ColumnLabels(s, rows, vi, v, n - 1) + CellLabels(s, rows, n - 1, vi, v)
  }

  /** The labels of variables 0 .. m-1, in variable order; each variable's row
      loop runs to one past the last row, as in the source. */
  function LabelsUpTo(s: Session, rows: seq<Row>, vars: seq<Variable>, m: nat): seq<LabelRecord>
    requires m <= |vars|
  {
    if m == 0 then [] else LabelsUpTo(s, rows, vars, m - 1) + ColumnLabels(s, rows, m - 1, vars[m - 1], |rows| + 1)
  }

  /** `labelList` once both loops of `printLabels` have run. */
  function Generated(s: Session, rows: seq<Row>, vars: seq<Variable>): (labels: seq<LabelRecord>)
    ensures |labels| == ExpectedCount(rows, vars, |vars|)
  {
    LabelCount(s, rows, vars, |vars|);
    LabelsUpTo(s, rows, vars, |vars|)
  }

  /** The loops of `printLabels` that fill `labelList`. */
  method GenerateLabels(s: Session, rows: seq<Row>, vars: seq<Variable>) returns (labelList: seq<LabelRecord>)
    ensures labelList == Generated(s, rows, vars)
  {
    labelList := [];
    for columna := 0 to |vars|
      invariant labelList == LabelsUpTo(s, rows, vars, columna)
    {
      labelList := AppendColumnLabels(labelList, s, rows, columna, vars[columna]);
    }
  }

  /** The row loop for one variable, over `range(0, rows + 1)`. */
  method AppendColumnLabels(labelList: seq<LabelRecord>, s: Session, rows: seq<Row>, columna: int, v: Variable)
    returns (extended: seq<LabelRecord>)
    ensures extended == labelList + ColumnLabels(s, rows, columna, v, |rows| + 1)
  {
    extended := labelList;
    for fila := 0 to |rows| + 1
      invariant extended == labelList + ColumnLabels(s, rows, columna, v, fila)
    {
      extended := AppendCellLabels(extended, s, rows, fila, columna, v);
      ColumnLabelsAppend(labelList, s, rows, columna, v, fila);
    }
  }

  /** One more pass of the row loop extends the list by the next cell's labels. */
  lemma ColumnLabelsAppend(labelList: seq<LabelRecord>, s: Session, rows: seq<Row>, vi: int, v: Variable, n: nat)
    ensures labelList + ColumnLabels(s, rows, vi, v, n + 1) ==
            labelList + ColumnLabels(s, rows, vi, v, n) + CellLabels(s, rows, n, vi, v)
  {
    var done, cell := ColumnLabels(s, rows, vi, v, n), CellLabels(s, rows, n, vi, v);
    assert ColumnLabels(s, rows, vi, v, n + 1) == done + cell;
    assert labelList + done + cell == labelList + (done + cell);
  }

  /** The body of the row loop: read the cell, skip it when unassigned, else
      append one label per replica. */
  method AppendCellLabels(labelList: seq<LabelRecord>, s: Session, rows: seq<Row>, fila: int, columna: int, v: Variable)
    returns (extended: seq<LabelRecord>)
    ensures extended == labelList + CellLabels(s, rows, fila, columna, v)
  {
    var depth := DepthText(rows, fila);
    var obs := ObsText(rows, fila);
    var bottle := BottleText(rows, fila, columna);
    extended := labelList;
    if bottle != "" {
      ghost var cell := CellLabels(s, rows, fila, columna, v);
      if v.replicas > 1 {
        for replica := 0 to v.replicas
          invariant extended == labelList + cell[..replica]
        {
          var shortVarName := Prefix(Upper(v.name), 4);
          var variable := shortVarName + "/" + NatToString(replica + 1);
          extended := extended + [LabelRecord(s.survey, s.cast, s.station, bottle, depth, obs, variable)];
          assert cell[..replica + 1] == cell[..replica] + [cell[replica]];
        }
        assert cell[..v.replicas] == cell;
      } else {
        var shortVarName := Prefix(Upper(v.name), 6);
        extended := extended + [LabelRecord(s.survey, s.cast, s.station, bottle, depth, obs, shortVarName)];
      }
    }
  }

  // ---------------------------------------------------------------------
  // What the list holds

  /** The rows below `n` whose cell in variable column `vi` is assigned. */
  function AssignedBelow(rows: seq<Row>, vi: int, n: int): set<int> {
    set r | 0 <= r < n && BottleText(rows, r, vi) != ""
  }

  /** The rows whose cell in variable column `vi` is assigned. */
  function AssignedRows(rows: seq<Row>, vi: int): set<int> {
    AssignedBelow(rows, vi, |rows|)
  }

  /** The expected number of labels: replica count times assigned rows, summed
      over variables 0 .. m-1. */
  function ExpectedCount(rows: seq<Row>, vars: seq<Variable>, m: nat): nat
    requires m <= |vars|
  {
    if m == 0 then 0 else ExpectedCount(rows, vars, m - 1) + Copies(vars[m - 1].replicas) * |AssignedRows(rows, m - 1)|
  }

  lemma MultiplySuccessor(c: int, k: int)
    ensures c * (k + 1) == c * k + c
  {
  }

  /** Moving the row bound past one more row adds that row exactly when its cell
      is assigned. */
  lemma AssignedBelowStep(rows: seq<Row>, vi: int, n: nat)
    requires n > 0
    ensures |AssignedBelow(rows, vi, n)| == |AssignedBelow(rows, vi, n - 1)| + (if BottleText(rows, n - 1, vi) != "" then 1 else 0)
  {
    var prev, now := AssignedBelow(rows, vi, n - 1), AssignedBelow(rows, vi, n);
    if BottleText(rows, n - 1, vi) != "" {
      assert n - 1 !in prev && now == prev + {n - 1};
    } else {
      assert now == prev;
    }
  }

  lemma {:induction false} ColumnLabelsCount(s: Session, rows: seq<Row>, vi: int, v: Variable, n: nat)
    requires n <= |rows| + 1
    ensures |ColumnLabels(s, rows, vi, v, n)| == Copies(v.replicas) * |AssignedBelow(rows, vi, n)|
  {
    if n > 0 {
      ColumnLabelsCount(s, rows, vi, v, n - 1);
      AssignedBelowStep(rows, vi, n);
      var c, k := Copies(v.replicas), |AssignedBelow(rows, vi, n - 1)|;
      assert |ColumnLabels(s, rows, vi, v, n)| == c * k + |CellLabels(s, rows, n - 1, vi, v)|;
      MultiplySuccessor(c, k);
    }
  }

  /** The index one past the last row holds no assignment. */
  lemma AssignedBelowPastLastRow(rows: seq<Row>, vi: int)
    ensures AssignedBelow(rows, vi, |rows| + 1) == AssignedRows(rows, vi)
  {
    assert BottleText(rows, |rows|, vi) == "";
  }

  /** The number of labels is the sum over variables of replica count times
      assigned rows. */
  lemma {:induction false} LabelCount(s: Session, rows: seq<Row>, vars: seq<Variable>, m: nat)
    requires m <= |vars|
    ensures |LabelsUpTo(s, rows, vars, m)| == ExpectedCount(rows, vars, m)
  {
    if m > 0 {
      LabelCount(s, rows, vars, m - 1);
      ColumnLabelsCount(s, rows, m - 1, vars[m - 1], |rows| + 1);
      AssignedBelowPastLastRow(rows, m - 1);
    }
  }

  /** Every label of a variable's part comes from one of its cells ... */
  lemma {:induction false} ColumnLabelsSound(s: Session, rows: seq<Row>, vi: int, v: Variable, n: nat, x: LabelRecord)
      returns (r: int)
    requires x in ColumnLabels(s, rows, vi, v, n)
    ensures 0 <= r < n && x in CellLabels(s, rows, r, vi, v)
  {
    var prev, cell := ColumnLabels(s, rows, vi, v, n - 1), CellLabels(s, rows, n - 1, vi, v);
    assert ColumnLabels(s, rows, vi, v, n) == prev + cell;
    if x in cell {
      r := n - 1;
    } else {
      r := ColumnLabelsSound(s, rows, vi, v, n - 1, x);
    }
  }

  /** ... and every label of each of its cells is in it. */
  lemma {:induction false} ColumnLabelsComplete(s: Session, rows: seq<Row>, vi: int, v: Variable, n: nat, r: int, x: LabelRecord)
    requires 0 <= r < n && x in CellLabels(s, rows, r, vi, v)
    ensures x in ColumnLabels(s, rows, vi, v, n)
  {
    var prev, cell := ColumnLabels(s, rows, vi, v, n - 1), CellLabels(s, rows, n - 1, vi, v);
    assert ColumnLabels(s, rows, vi, v, n) == prev + cell;
    if r < n - 1 {
      ColumnLabelsComplete(s, rows, vi, v, n - 1, r, x);
    } else {
      assert x in cell;
    }
  }

  lemma ColumnLabelsMembership(s: Session, rows: seq<Row>, vi: int, v: Variable, n: nat, x: LabelRecord)
    ensures x in ColumnLabels(s, rows, vi, v, n) <==>
            exists r :: 0 <= r < n && x in CellLabels(s, rows, r, vi, v)
  {
    if x in ColumnLabels(s, rows, vi, v, n) {
      var r := ColumnLabelsSound(s, rows, vi, v, n, x);
    }
    if exists r :: 0 <= r < n && x in CellLabels(s, rows, r, vi, v) {
      var r :| 0 <= r < n && x in CellLabels(s, rows, r, vi, v);
      ColumnLabelsComplete(s, rows, vi, v, n, r, x);
    }
  }

  /** Every generated label comes from a real cell of one of the variables: the
      extra index past the last row contributes nothing ... */
  lemma {:induction false} LabelsUpToSound(s: Session, rows: seq<Row>, vars: seq<Variable>, m: nat, x: LabelRecord)
      returns (vi: int, r: int)
    requires m <= |vars| && x in LabelsUpTo(s, rows, vars, m)
    ensures 0 <= vi < m && 0 <= r < |rows| && x in CellLabels(s, rows, r, vi, vars[vi])
  {
    var prev, col := LabelsUpTo(s, rows, vars, m - 1), ColumnLabels(s, rows, m - 1, vars[m - 1], |rows| + 1);
    assert LabelsUpTo(s, rows, vars, m) == prev + col;
    if x in col {
      vi := m - 1;
      r := ColumnLabelsSound(s, rows, m - 1, vars[m - 1], |rows| + 1, x);
      assert r != |rows| by {
        assert CellLabels(s, rows, |rows|, m - 1, vars[m - 1]) == [];
      }
    } else {
      vi, r := LabelsUpToSound(s, rows, vars, m - 1, x);
    }
  }

  /** ... and every label of every real cell is generated. */
  lemma {:induction false} LabelsUpToComplete(s: Session, rows: seq<Row>, vars: seq<Variable>, m: nat, vi: int, r: int, x: LabelRecord)
    requires m <= |vars| && 0 <= vi < m && 0 <= r < |rows| && x in CellLabels(s, rows, r, vi, vars[vi])
    ensures x in LabelsUpTo(s, rows, vars, m)
  {
    var prev, col := LabelsUpTo(s, rows, vars, m - 1), ColumnLabels(s, rows, m - 1, vars[m - 1], |rows| + 1);
    assert LabelsUpTo(s, rows, vars, m) == prev + col;
    if vi == m - 1 {
      ColumnLabelsComplete(s, rows, vi, vars[vi], |rows| + 1, r, x);
      assert x in col;
    } else {
      LabelsUpToComplete(s, rows, vars, m - 1, vi, r, x);
      assert x in prev;
    }
  }

  lemma LabelsUpToMembership(s: Session, rows: seq<Row>, vars: seq<Variable>, m: nat, x: LabelRecord)
    requires m <= |vars|
    ensures x in LabelsUpTo(s, rows, vars, m) <==>
            exists vi, r :: 0 <= vi < m && 0 <= r < |rows| && x in CellLabels(s, rows, r, vi, vars[vi])
  {
    if x in LabelsUpTo(s, rows, vars, m) {
      var vi, r := LabelsUpToSound(s, rows, vars, m, x);
    }
    if exists vi, r :: 0 <= vi < m && 0 <= r < |rows| && x in CellLabels(s, rows, r, vi, vars[vi]) {
      var vi, r :| 0 <= vi < m && 0 <= r < |rows| && x in CellLabels(s, rows, r, vi, vars[vi]);
      LabelsUpToComplete(s, rows, vars, m, vi, r, x);
    }
  }

  /** A label belongs to a cell exactly when the cell is assigned and the label
      carries one of the variable's designators. */
  lemma CellLabelsMembership(s: Session, rows: seq<Row>, r: int, vi: int, v: Variable, x: LabelRecord)
    ensures x in CellLabels(s, rows, r, vi, v) <==>
            BottleText(rows, r, vi) != "" &&
            exists k :: 0 <= k < |Designators(v)| && x == Record(s, rows, r, vi, Designators(v)[k])
  {
    if BottleText(rows, r, vi) != "" {
      var cell := CellLabels(s, rows, r, vi, v);
      if x in cell {
        var k :| 0 <= k < |cell| && cell[k] == x;
        assert x == Record(s, rows, r, vi, Designators(v)[k]);
      }
      if exists k :: 0 <= k < |Designators(v)| && x == Record(s, rows, r, vi, Designators(v)[k]) {
        var k :| 0 <= k < |Designators(v)| && x == Record(s, rows, r, vi, Designators(v)[k]);
        assert cell[k] == x;
      }
    }
  }

  /** A label is generated exactly when it is one replica label of an assigned
      cell: every assigned cell is printed and no unassigned one is. */
  lemma GeneratedMembership(s: Session, rows: seq<Row>, vars: seq<Variable>, x: LabelRecord)
    ensures x in Generated(s, rows, vars) <==>
            exists vi, r, k :: 0 <= vi < |vars| && 0 <= r < |rows| && 0 <= k < |Designators(vars[vi])|
                               && BottleText(rows, r, vi) != ""
                               && x == Record(s, rows, r, vi, Designators(vars[vi])[k])
  {
    LabelsUpToMembership(s, rows, vars, |vars|, x);
    if x in Generated(s, rows, vars) {
      var vi, r :| 0 <= vi < |vars| && 0 <= r < |rows| && x in CellLabels(s, rows, r, vi, vars[vi]);
      CellLabelsMembership(s, rows, r, vi, vars[vi], x);
    }
    if exists vi, r, k :: 0 <= vi < |vars| && 0 <= r < |rows| && 0 <= k < |Designators(vars[vi])|
                         && BottleText(rows, r, vi) != ""
                         && x == Record(s, rows, r, vi, Designators(vars[vi])[k]) {
      var vi, r, k :| 0 <= vi < |vars| && 0 <= r < |rows| && 0 <= k < |Designators(vars[vi])|
                      && BottleText(rows, r, vi) != ""
                      && x == Record(s, rows, r, vi, Designators(vars[vi])[k]);
      CellLabelsMembership(s, rows, r, vi, vars[vi], x);
    }
  }

  // ---------------------------------------------------------------------
  // The payload

  /** Each label rendered through the template. */
  function Rendered(render: LabelRecord -> string, labels: seq<LabelRecord>): (docs: seq<string>)
    ensures |docs| == |labels|
  {
    seq(|labels|, i requires 0 <= i < |labels| => render(labels[i]))
  }

  /** `'\n'.join(reversed(labelList))`, the templates rendered. */
  function Payload(render: LabelRecord -> string, labels: seq<LabelRecord>): (payload: string)
    ensures labels == [] ==> payload == ""
    ensures labels != [] ==> render(labels[|labels| - 1]) <= payload
    ensures labels != [] ==> var first := render(labels[0]);
                             |first| <= |payload| && payload[|payload| - |first|..] == first
  {
    var docs := Rendered(render, labels);
    if docs == [] then Join(Reverse(docs), "\n")
    else
      ReverseAt(docs, 0);
      ReverseAt(docs, |docs| - 1);
      Join(Reverse(docs), "\n")
  }

  /** The payload carries the labels last-generated first: an empty batch is an
      empty payload, otherwise it starts with the last label generated. */
  lemma PayloadOrder(render: LabelRecord -> string, labels: seq<LabelRecord>)
    ensures labels == [] ==> Payload(render, labels) == ""
    ensures forall i :: 0 <= i < |labels| ==> Reverse(Rendered(render, labels))[i] == render(labels[|labels| - 1 - i])
    ensures labels != [] ==> render(labels[|labels| - 1]) <= Payload(render, labels)
  {
    var docs := Rendered(render, labels);
    forall i | 0 <= i < |labels|
      ensures Reverse(docs)[i] == render(labels[|labels| - 1 - i])
    {
      ReverseAt(docs, i);
    }
    if labels != [] {
      JoinStartsWithFirst(Reverse(docs), "\n");
    }
  }

  // ---------------------------------------------------------------------
  // The source as written

  /** The Python exception a print request stops with. */
  datatype PrintError = NameError(name: string)

  /** `printLabels` as written: line 329 reads the undefined name `botle`, so
      with any variable configured the first pass of the row loop raises before
      anything is sent; with none the empty payload is sent. */
  function PrintAsWritten(s: Session, rows: seq<Row>, vars: seq<Variable>, render: LabelRecord -> string): (r: Result<string, PrintError>)
    ensures r.Failure? <==> |vars| > 0
    ensures r.Failure? ==> r.error == NameError("botle")
    ensures r.Success? ==> r.value == ""
  {
    if |vars| > 0 then Failure(NameError("botle")) else Success(Payload(render, Generated(s, rows, vars)))
  }

  /** Any grid with a bottle assigned has labels to print, yet the request as
      written fails. */
  lemma BotleStopsEveryPrint(s: Session, rows: seq<Row>, vars: seq<Variable>, render: LabelRecord -> string, r: int, vi: int)
    requires 0 <= vi < |vars| && 0 <= r < |rows| && BottleText(rows, r, vi) != ""
    ensures PrintAsWritten(s, rows, vars, render) == Failure(NameError("botle"))
    ensures |Generated(s, rows, vars)| >= 1
  {
    GeneratedMembership(s, rows, vars, Record(s, rows, r, vi, Designators(vars[vi])[0]));
  }

  /** A replica label needs the depth: some variable with more than one replica
      has an assigned row. */
  predicate NeedsReplicaDepth(rows: seq<Row>, vars: seq<Variable>) {
    exists vi, r :: 0 <= vi < |vars| && 0 <= r < |rows| && vars[vi].replicas > 1 && BottleText(rows, r, vi) != ""
  }

  /** `printLabels` with line 329 repaired but line 334 as written: the replica
      branch reads the undefined name `detph`. */
  function PrintDetphAsWritten(s: Session, rows: seq<Row>, vars: seq<Variable>, render: LabelRecord -> string): (r: Result<string, PrintError>)
    ensures r.Failure? <==> NeedsReplicaDepth(rows, vars)
    ensures r.Failure? ==> r.error == NameError("detph")
    ensures (forall vi :: 0 <= vi < |vars| ==> vars[vi].replicas <= 1) ==> r.Success?
  {
    if NeedsReplicaDepth(rows, vars) then Failure(NameError("detph")) else Success(Payload(render, Generated(s, rows, vars)))
  }

  /** One bottle for a three-replica variable: three labels are due, with
      designators OXYG/1, OXYG/2, OXYG/3 and the row's depth, but line 334 as
      written stops the request. */
  lemma DetphStopsReplicaPrint(s: Session, render: LabelRecord -> string)
    ensures var rows := [Row("5 m", None, [Some("1")])];
            var vars := [Variable("Oxygen", 3)];
            && PrintDetphAsWritten(s, rows, vars, render) == Failure(NameError("detph"))
            && Generated(s, rows, vars) ==
               [LabelRecord(s.survey, s.cast, s.station, "1", "5 m", "", "OXYG/1"),
                LabelRecord(s.survey, s.cast, s.station, "1", "5 m", "", "OXYG/2"),
                LabelRecord(s.survey, s.cast, s.station, "1", "5 m", "", "OXYG/3")]
  {
    var rows := [Row("5 m", None, [Some("1")])];
    var v := Variable("Oxygen", 3);
    var vars := [v];
    assert BottleText(rows, 0, 0) == "1" && DepthText(rows, 0) == "5 m" && ObsText(rows, 0) == "";
    assert NeedsReplicaDepth(rows, vars);
    assert Upper("Oxygen") == "OXYGEN";
    assert Prefix("OXYGEN", 4) == "OXYG";
    var ds := Designators(v);
    assert ds[0] == "OXYG/1" && ds[1] == "OXYG/2" && ds[2] == "OXYG/3";
    var cell := CellLabels(s, rows, 0, 0, v);
    assert cell == [Record(s, rows, 0, 0, ds[0]), Record(s, rows, 0, 0, ds[1]), Record(s, rows, 0, 0, ds[2])];
    assert BottleText(rows, 1, 0) == "" && CellLabels(s, rows, 1, 0, v) == [];
    assert ColumnLabels(s, rows, 0, v, 1) == [] + cell;
    assert ColumnLabels(s, rows, 0, v, 2) == cell + [];
    assert LabelsUpTo(s, rows, vars, 1) == LabelsUpTo(s, rows, vars, 0) + ColumnLabels(s, rows, 0, vars[0], |rows| + 1);
    assert Generated(s, rows, vars) == [] + ColumnLabels(s, rows, 0, v, 2);
  }

  // ---------------------------------------------------------------------
  // Worked cases

  /** A single-replica variable gives one label per assigned row, named by the
      first six letters of the upper-cased name; two rows 5 m and 25 m are
      generated in row order and sent in the reverse order. */
  lemma TwoRowsReversed(s: Session)
    ensures var rows := [Row("5 m", None, [Some("1")]), Row("25 m", None, [Some("2")])];
            var vars := [Variable("Salinity", 1)];
            var r1 := LabelRecord(s.survey, s.cast, s.station, "1", "5 m", "", "SALINI");
            var r2 := LabelRecord(s.survey, s.cast, s.station, "2", "25 m", "", "SALINI");
            Generated(s, rows, vars) == [r1, r2] && Reverse(Generated(s, rows, vars)) == [r2, r1]
  {
    var rows := [Row("5 m", None, [Some("1")]), Row("25 m", None, [Some("2")])];
    var v := Variable("Salinity", 1);
    var vars := [v];
    var r1 := LabelRecord(s.survey, s.cast, s.station, "1", "5 m", "", "SALINI");
    var r2 := LabelRecord(s.survey, s.cast, s.station, "2", "25 m", "", "SALINI");
    assert Upper("Salinity") == "SALINITY";
    assert Prefix("SALINITY", 6) == "SALINI";
    assert Designators(v) == ["SALINI"];
    assert BottleText(rows, 0, 0) == "1" && DepthText(rows, 0) == "5 m" && ObsText(rows, 0) == "";
    assert BottleText(rows, 1, 0) == "2" && DepthText(rows, 1) == "25 m" && ObsText(rows, 1) == "";
    assert BottleText(rows, 2, 0) == "";
    assert CellLabels(s, rows, 0, 0, v) == [r1];
    assert CellLabels(s, rows, 1, 0, v) == [r2];
    assert CellLabels(s, rows, 2, 0, v) == [];
    assert ColumnLabels(s, rows, 0, v, 1) == [] + [r1];
    assert ColumnLabels(s, rows, 0, v, 2) == [r1] + [r2];
    assert ColumnLabels(s, rows, 0, v, 3) == [r1, r2] + [];
    assert LabelsUpTo(s, rows, vars, 1) == LabelsUpTo(s, rows, vars, 0) + ColumnLabels(s, rows, 0, vars[0], |rows| + 1);
    assert Generated(s, rows, vars) == [] + ColumnLabels(s, rows, 0, v, 3);
    assert Reverse([r1, r2]) == [r2] + Reverse([r1]);
    assert Reverse([r1]) == [r1] + Reverse<LabelRecord>([]);
  }
}
