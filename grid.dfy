/** The assignment grid as values: one row per sampling depth, with the depth
    label in table column 0, the observation in column 1 and one bottle cell per
    configured variable in columns 2, 3, ... */
module Grid {
  import opened Wrappers
  import opened Text

  /** A table cell: `None` when the cell holds no item (its data reads as None),
      otherwise the item's text. */
  type Cell = Option<string>

  /** Column 0 always holds an item (a new row gets one), so its text is a string. */
  datatype Row = Row(depth: string, obs: Cell, bottles: seq<Cell>)

  /** A configured variable: its name and its replica count (`as_int`, any integer). */
  datatype Variable = Variable(name: string, replicas: int)

  /** A model index of the table: row and table column. */
  datatype Index = Index(row: int, column: int)

  /** `none2String`: a missing value reads as the empty string. */
  function None2String(c: Cell): (s: string)
    ensures s == "" <==> (c == None || c == Some(""))
    ensures c.Some? ==> s == c.value
  {
    c.GetOr("")
  }

  /** The text of the bottle cell of variable `v` (table column v + 2) in row `r`;
      an index outside the table reads as empty, as an invalid model index does. */
  function BottleText(rows: seq<Row>, r: int, v: int): string {
    if 0 <= r < |rows| && 0 <= v < |rows[r].bottles| then None2String(rows[r].bottles[v]) else ""
  }

  /** The depth text of row `r`, empty outside the table. */
  function DepthText(rows: seq<Row>, r: int): string {
    if 0 <= r < |rows| then rows[r].depth else ""
  }

  /** The observation text of row `r` after `none2String`, empty outside the table. */
  function ObsText(rows: seq<Row>, r: int): string {
    if 0 <= r < |rows| then None2String(rows[r].obs) else ""
  }

  /** Every row has exactly one bottle cell per variable. */
  predicate WellFormed(rows: seq<Row>, nvars: nat) {
    forall r :: 0 <= r < |rows| ==> |rows[r].bottles| == nvars
  }

  /** The row `addRow2Table` appends: the depth item, no observation, no bottles. */
  function NewRow(depth: string, nvars: nat): (row: Row)
    ensures |row.bottles| == nvars
    ensures forall v :: 0 <= v < nvars ==> row.bottles[v] == None
  {
    Row(depth, None, seq(nvars, _ => None))
  }

  // ---------------------------------------------------------------------
  // Selection guard (checkSelection)

  /** The set of rows a selection touches. */
  function SelectedRows(selection: seq<Index>): set<int> {
    set i | i in selection :: i.row
  }

  /** A selection that stays within one row (or is empty). */
  predicate SingleRow(selection: seq<Index>) {
    |SelectedRows(selection)| <= 1
  }

  /** `checkSelection`: a selection spanning more than one row is cleared, any
      other is kept as it is. */
  function CheckSelection(selection: seq<Index>): (kept: seq<Index>)
    ensures SingleRow(kept)
    ensures kept == selection <==> SingleRow(selection)
    ensures kept != selection ==> kept == []
  {
    if |SelectedRows(selection)| > 1 then [] else selection
  }

  /** Within one row means: any two selected cells share their row. */
  lemma {:induction false} SingleRowIffSameRow(selection: seq<Index>)
    ensures SingleRow(selection) <==>
            forall i, j :: i in selection && j in selection ==> i.row == j.row
  {
    var rs := SelectedRows(selection);
    if |rs| > 1 {
      var a :| a in rs;
      assert |rs - {a}| == |rs| - 1 > 0;
      var b :| b in rs - {a};
      var i :| i in selection && i.row == a;
      var j :| j in selection && j.row == b;
      assert i.row != j.row;
    } else if selection != [] {
      var i := selection[0];
      assert i.row in rs;
      assert |rs - {i.row}| == |rs| - 1;
      assert rs - {i.row} == {};
      forall j | j in selection
        ensures j.row == i.row
      {
        assert j.row in rs;
      }
    }
  }

  /** Checking a selection twice clears no more than checking it once. */
  lemma CheckSelectionIdempotent(selection: seq<Index>)
    ensures CheckSelection(CheckSelection(selection)) == CheckSelection(selection)
  {
  }

  // ---------------------------------------------------------------------
  // Depth presets (populateTable)

  /** `[p for p in presets if p < stationMax]`. */
  function DepthsBelow(presets: seq<int>, stationMax: int): (depths: seq<int>)
    ensures |depths| <= |presets|
    ensures forall p :: p in depths <==> p in presets && p < stationMax
  {
    if presets == [] then []
    else if presets[0] < stationMax then [presets[0]] + DepthsBelow(presets[1..], stationMax)
    else DepthsBelow(presets[1..], stationMax)
  }

  /** The filter works preset by preset: filtering a concatenation is
      concatenating the filtered parts, so each kept preset keeps its place. */
  lemma {:induction false} DepthsBelowAppend(a: seq<int>, b: seq<int>, stationMax: int)
    ensures DepthsBelow(a + b, stationMax) == DepthsBelow(a, stationMax) + DepthsBelow(b, stationMax)
  {
    if a == [] {
      assert a + b == b;
    } else {
      assert (a + b)[0] == a[0] && (a + b)[1..] == a[1..] + b;
      DepthsBelowAppend(a[1..], b, stationMax);
    }
  }

  /** A single preset is kept exactly when it lies strictly below the maximum. */
  lemma DepthsBelowSingle(p: int, stationMax: int)
    ensures DepthsBelow([p], stationMax) == if p < stationMax then [p] else []
  {
    assert [p][1..] == [];
  }

  predicate StrictlyAscending(s: seq<int>) {
    forall i, j :: 0 <= i < j < |s| ==> s[i] < s[j]
  }

  /** With ascending presets the depths kept are exactly the presets before the
      first one that reaches the station's maximum depth. */
  lemma {:induction false} DepthsBelowAscending(presets: seq<int>, stationMax: int)
    requires StrictlyAscending(presets)
    ensures var d := DepthsBelow(presets, stationMax);
            d == presets[..|d|] && (|d| < |presets| ==> presets[|d|] >= stationMax)
  {
    if presets != [] {
      assert StrictlyAscending(presets[1..]);
      DepthsBelowAscending(presets[1..], stationMax);
      if presets[0] >= stationMax {
        DepthsBelowNone(presets[1..], stationMax);
      }
    }
  }

  /** No preset below the maximum leaves no depth. */
  lemma {:induction false} DepthsBelowNone(presets: seq<int>, stationMax: int)
    requires forall p :: p in presets ==> p >= stationMax
    ensures DepthsBelow(presets, stationMax) == []
  {
    if presets != [] {
      assert presets[0] in presets;
      assert forall p :: p in presets[1..] ==> p in presets;
      DepthsBelowNone(presets[1..], stationMax);
    }
  }

  /** A station 100 m deep keeps the presets 5, 25, 50 and 75 m: the filter is
      strict, so 100 m itself is dropped. */
  lemma StationDepthsExample()
    ensures DepthsBelow([5, 25, 50, 75, 100, 125], 100) == [5, 25, 50, 75]
    ensures DepthLabel(5) == "5 m" && DepthLabel(75) == "75 m"
  {
    var presets := [5, 25, 50, 75, 100, 125];
    DepthsBelowAscending(presets, 100);
    assert NatToString(7) == "7" && NatToString(5) == "5";
  }

  /** `'%i m' % p`. */
  function DepthLabel(p: int): (tag: string)
    ensures |tag| >= 3 && tag[|tag| - 2..] == " m"
    ensures p < 0 <==> tag[0] == '-'
    ensures p >= 0 ==> IsDigits(tag[..|tag| - 2]) && ParseNat(tag[..|tag| - 2]) == p
  {
    var tag := IntToString(p) + " m";
    assert tag[..|tag| - 2] == IntToString(p);
    if p >= 0 then ParseNatToString(p); tag else tag
  }

  /** Distinct preset depths give distinct labels. */
  lemma DepthLabelInjective(p: int, q: int)
    requires DepthLabel(p) == DepthLabel(q)
    ensures p == q
  {
    var s, t := IntToString(p), IntToString(q);
    assert s == (s + " m")[..|s|] == (t + " m")[..|t|] == t;
    IntToStringInjective(p, q);
  }

  // ---------------------------------------------------------------------
  // Bulk assignment (assignBottle)

  /** `text` as `assignBottle` writes it: the "NO" button clears the cells. */
  function ButtonValue(buttonText: string): (text: string)
    ensures buttonText == "NO" ==> text == ""
    ensures buttonText != "NO" ==> text == buttonText
  {
    if buttonText == "NO" then "" else buttonText
  }

  /** `after` is `before` with `text` written into every selected cell of a
      bottle column (table column > 1) and nothing else changed. */
  predicate AssignedFrom(before: seq<Row>, after: seq<Row>, selection: seq<Index>, text: string) {
    && |after| == |before|
    && (forall r :: 0 <= r < |before| ==>
          after[r].depth == before[r].depth && after[r].obs == before[r].obs
          && |after[r].bottles| == |before[r].bottles|)
    && (forall r, v :: 0 <= r < |before| && 0 <= v < |before[r].bottles| ==>
          after[r].bottles[v] == if Index(r, v + 2) in selection then Some(text) else before[r].bottles[v])
  }
}
