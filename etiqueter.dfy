/** The `Etiqueter` widget without Qt: the table's rows, which its slots change
    in place, and the enabled state of the print button. The current row and
    the selection belong to the table view and are passed in. */
module Etiqueter {
  import opened Wrappers
  import opened Grid
  import opened Validator
  import opened Labels

  class Etiqueter {
    /** The configured variables, one bottle column each, in configuration order. */
    const variables: seq<Variable>
    var rows: seq<Row>
    var printEnabled: bool

    ghost predicate Valid()
      reads this
    {
      WellFormed(rows, |variables|)
    }

    /** A fresh widget: an empty table and the print button disabled. */
    constructor (variables: seq<Variable>)
      ensures Valid()
      ensures this.variables == variables && rows == [] && !printEnabled
    {
      this.variables := variables;
      rows := [];
      printEnabled := false;
    }

    /** `addRow2Table`: a new last row holding the given depth, or an empty
        depth item when none is given. */
    method AddRow(prof: Option<string>)
      requires Valid()
      modifies this`rows
      ensures Valid()
      ensures |rows| == |old(rows)| + 1
      ensures rows == old(rows) + [NewRow(prof.GetOr(""), |variables|)]
    {
      var newRow := |rows|;
      rows := rows + [NewRow(prof.GetOr(""), |variables|)];
      assert rows[newRow].depth == prof.GetOr("");
    }

    /** `removeRowFromTable`: drops the current row; with no current row
        (index -1) the table is unchanged. */
    method RemoveCurrentRow(current: int)
      requires Valid()
      modifies this`rows
      ensures Valid()
      ensures 0 <= current < |old(rows)| ==> rows == old(rows)[..current] + old(rows)[current + 1..]
      ensures !(0 <= current < |old(rows)|) ==> rows == old(rows)
    {
      if 0 <= current < |rows| {
        rows := rows[..current] + rows[current + 1..];
      }
    }

    /** `populateTable`: empties the table, then for a chosen station appends one
        row per preset depth strictly below the station's maximum depth, in
        preset order, labelled `'%i m'`. */
    method Populate(station: string, stations: map<string, int>, presets: seq<int>)
      requires Valid()
      requires station == "" || station in stations
      modifies this`rows
      ensures Valid()
      ensures station == "" ==> rows == []
      ensures station != "" ==>
                var depths := DepthsBelow(presets, stations[station]);
                rows == seq(|depths|, i requires 0 <= i < |depths| => NewRow(DepthLabel(depths[i]), |variables|))
    {
      rows := [];
      if station != "" {
        var stnMaxProf := stations[station];
        var depths := DepthsBelow(presets, stnMaxProf);
        for i := 0 to |depths|
          invariant Valid()
          invariant rows == seq(i, k requires 0 <= k < i => NewRow(DepthLabel(depths[k]), |variables|))
        {
          AddRow(Some(DepthLabel(depths[i])));
        }
      }
    }

    /** `checkBottles` and the `enablePrintButton` slot it signals: every bottle
        in use gets its colour, and the print button follows the last emitted
        verdict, which leaves it as it was when no bottle is assigned. */
    method CheckBottles() returns (status: map<string, Status>)
      requires Valid()
      modifies this`printEnabled
      ensures Valid()
      ensures status.Keys == Bottles(rows, |variables|)
      ensures forall b :: b in status ==> status[b] == StatusOf(rows, |variables|, b)
      ensures printEnabled == Signal(rows, |variables|).GetOr(old(printEnabled))
    {
      var bottles, emitted;
      bottles, status, emitted := Validate(rows, |variables|);
      if emitted.Some? {
        printEnabled := emitted.value;
      }
    }

    /** `assignBottle`: writes the button's text ("" for the NO button) into every
        selected cell right of the observation column, then re-checks the bottles. */
    method AssignBottle(buttonText: string, selection: seq<Index>) returns (status: map<string, Status>)
      requires Valid()
      requires forall i :: i in selection ==> 0 <= i.row < |rows| && 0 <= i.column < |variables| + 2
      modifies this`rows, this`printEnabled
      ensures Valid()
      ensures AssignedFrom(old(rows), rows, selection, ButtonValue(buttonText))
      ensures status.Keys == Bottles(rows, |variables|)
      ensures forall b :: b in status ==> status[b] == StatusOf(rows, |variables|, b)
      ensures printEnabled == Signal(rows, |variables|).GetOr(old(printEnabled))
    {
      var bottleNumber := ButtonValue(buttonText);
      for i := 0 to |selection|
        invariant Valid() && printEnabled == old(printEnabled)
        invariant AssignedFrom(old(rows), rows, selection[..i], bottleNumber)
      {
        var index := selection[i];
        if index.column > 1 {
          var row := rows[index.row];
          rows := rows[index.row := Row(row.depth, row.obs, row.bottles[index.column - 2 := Some(bottleNumber)])];
        }
        assert selection[..i + 1] == selection[..i] + [index];
      }
      assert selection[..|selection|] == selection;
      status := CheckBottles();
    }

    /** `printLabels` up to the socket: the payload it would send. */
    method PrintLabels(session: Session, render: LabelRecord -> string) returns (payload: string)
      requires Valid()
      ensures payload == Payload(render, Generated(session, rows, variables))
    {
      var labelList := GenerateLabels(session, rows, variables);
      payload := Payload(render, labelList);
    }
  }
}
