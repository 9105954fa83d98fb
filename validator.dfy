/** The conflict validator behind `checkBottles`: which bottle numbers are in
    use, in which rows each occurs, and whether any occurs at two depths. */
module Validator {
  import opened Wrappers
  import opened Grid

  /** The colour a bottle's cells get: lightgreen or red. */
  datatype Status = Ok | Conflict

  // ---------------------------------------------------------------------
  // The bottles in use

  /** The non-empty texts of variable column `v` among rows 0 .. n-1. */
  function ColumnBottles(rows: seq<Row>, v: int, n: nat): set<string> {
    if n == 0 then {}
    else ColumnBottles(rows, v, n - 1) + (if BottleText(rows, n - 1, v) != "" then {BottleText(rows, n - 1, v)} else {})
  }

  /** The non-empty texts of variable columns 0 .. c-1, read over rows 0 .. n-1. */
  function CollectedBottles(rows: seq<Row>, c: nat, n: nat): set<string> {
    if c == 0 then {} else CollectedBottles(rows, c - 1, n) + ColumnBottles(rows, c - 1, n)
  }

  /** The bottles `checkBottles` collects: its row loop also reads the index
      one past the last row, which holds nothing. */
  function Bottles(rows: seq<Row>, nvars: nat): set<string> {
    CollectedBottles(rows, nvars, |rows| + 1)
  }

  lemma {:induction false} ColumnBottlesMembership(rows: seq<Row>, v: int, n: nat, b: string)
    ensures b in ColumnBottles(rows, v, n) <==>
            b != "" && exists r :: 0 <= r < n && BottleText(rows, r, v) == b
  {
    if n > 0 {
      ColumnBottlesMembership(rows, v, n - 1, b);
    }
  }

  lemma {:induction false} CollectedBottlesMembership(rows: seq<Row>, c: nat, n: nat, b: string)
    ensures b in CollectedBottles(rows, c, n) <==>
            b != "" && exists r, v :: 0 <= r < n && 0 <= v < c && BottleText(rows, r, v) == b
  {
    if c > 0 {
      CollectedBottlesMembership(rows, c - 1, n, b);
      ColumnBottlesMembership(rows, c - 1, n, b);
    }
  }

  /** The bottles checked are exactly the non-empty values of the bottle columns. */
  lemma BottlesMembership(rows: seq<Row>, nvars: nat, b: string)
    ensures b in Bottles(rows, nvars) <==>
            b != "" && exists r, v :: 0 <= r < |rows| && 0 <= v < nvars && BottleText(rows, r, v) == b
  {
    CollectedBottlesMembership(rows, nvars, |rows| + 1, b);
  }

  // ---------------------------------------------------------------------
  // Where a bottle occurs

  /** Row `r` holds bottle `b` in one of its bottle columns. */
  predicate InRow(rows: seq<Row>, r: int, nvars: nat, b: string) {
    exists v :: 0 <= v < nvars && BottleText(rows, r, v) == b
  }

  /** The rows in which bottle `b` occurs. */
  function BottleRows(rows: seq<Row>, nvars: nat, b: string): set<int> {
    set r | 0 <= r < |rows| && InRow(rows, r, nvars, b)
  }

  /** A bottle is in conflict when it occurs in more than one row. */
  predicate Conflicted(rows: seq<Row>, nvars: nat, b: string) {
    |BottleRows(rows, nvars, b)| > 1
  }

  function StatusOf(rows: seq<Row>, nvars: nat, b: string): Status {
    if Conflicted(rows, nvars, b) then Conflict else Ok
  }

  /** `all(botOK)`: no bottle in use is in conflict. */
  predicate AllOk(rows: seq<Row>, nvars: nat) {
    forall b :: b in Bottles(rows, nvars) ==> !Conflicted(rows, nvars, b)
  }

  /** What the readiness signal carries after a check: nothing when no bottle is
      assigned (the signal is emitted inside the loop over bottles), otherwise
      whether all bottles are ok. */
  function Signal(rows: seq<Row>, nvars: nat): Option<bool> {
    if Bottles(rows, nvars) == {} then None else Some(AllOk(rows, nvars))
  }

  lemma SubsetCardinality(a: set<int>, b: set<int>)
    requires a <= b
    ensures |a| <= |b|
  {
    assert b == a + (b - a) && a * (b - a) == {};
  }

  /** A bottle is in conflict exactly when two different rows hold it. */
  lemma ConflictedIffTwoRows(rows: seq<Row>, nvars: nat, b: string)
    ensures Conflicted(rows, nvars, b) <==>
            exists r1, r2 :: 0 <= r1 < r2 < |rows| && InRow(rows, r1, nvars, b) && InRow(rows, r2, nvars, b)
  {
    var s := BottleRows(rows, nvars, b);
    if |s| > 1 {
      var x :| x in s;
      assert |s - {x}| == |s| - 1 > 0;
      var y :| y in s - {x};
      if x < y {
        assert 0 <= x < y < |rows| && InRow(rows, x, nvars, b) && InRow(rows, y, nvars, b);
      } else {
        assert 0 <= y < x < |rows| && InRow(rows, y, nvars, b) && InRow(rows, x, nvars, b);
      }
    }
    if exists r1, r2 :: 0 <= r1 < r2 < |rows| && InRow(rows, r1, nvars, b) && InRow(rows, r2, nvars, b) {
      var r1, r2 :| 0 <= r1 < r2 < |rows| && InRow(rows, r1, nvars, b) && InRow(rows, r2, nvars, b);
      SubsetCardinality({r1, r2}, s);
    }
  }

  /** A grid with no bottle assigned is never signalled ready. */
  lemma NoBottleNoSignal(rows: seq<Row>, nvars: nat)
    requires forall r, v :: 0 <= r < |rows| && 0 <= v < nvars ==> BottleText(rows, r, v) == ""
    ensures Bottles(rows, nvars) == {} && Signal(rows, nvars) == None
  {
    forall b | b in Bottles(rows, nvars)
      ensures false
    {
      BottlesMembership(rows, nvars, b);
    }
  }

  // ---------------------------------------------------------------------
  // checkBottles

  /** The first loop of `checkBottles`: every non-empty bottle cell, columns
      first, rows within each column. `order` lists the distinct bottles in the
      order they were first met (the set's iteration order in Python is not
      specified; nothing below depends on it). */
  method CollectBottles(rows: seq<Row>, nvars: nat) returns (bottles: set<string>, order: seq<string>)
    ensures bottles == Bottles(rows, nvars)
    ensures forall b :: b in order <==> b in bottles
    ensures forall i, j :: 0 <= i < j < |order| ==> order[i] != order[j]
  {
    bottles, order := {}, [];
    for column := 0 to nvars
      invariant bottles == CollectedBottles(rows, column, |rows| + 1)
      invariant forall b :: b in order <==> b in bottles
      invariant forall i, j :: 0 <= i < j < |order| ==> order[i] != order[j]
    {
      for row := 0 to |rows| + 1
        invariant bottles == CollectedBottles(rows, column, |rows| + 1) + ColumnBottles(rows, column, row)
        invariant forall b :: b in order <==> b in bottles
        invariant forall i, j :: 0 <= i < j < |order| ==> order[i] != order[j]
      {
        var bottle := BottleText(rows, row, column);
        if bottle != "" && bottle !in bottles {
          order := order + [bottle];
        }
        if bottle != "" {
          bottles := bottles + {bottle};
        }
      }
    }
  }

  /** `checkBottles`: collect the bottles, then give each its status. The
      ensures say what the last emission of the readiness signal carries. */
  method Validate(rows: seq<Row>, nvars: nat) returns (bottles: set<string>, status: map<string, Status>, emitted: Option<bool>)
    ensures bottles == Bottles(rows, nvars)
    ensures status.Keys == bottles
    ensures forall b :: b in status ==> status[b] == StatusOf(rows, nvars, b)
    ensures emitted == Signal(rows, nvars)
  {
    var order;
    bottles, order := CollectBottles(rows, nvars);
    status, emitted := ColourBottles(rows, nvars, order);
    assert order == [] <==> bottles == {} by {
      if order != [] { assert order[0] in bottles; }
    }
  }

  /** The second loop of `checkBottles`: each bottle gets its status (and its
      cells their colour), and after each one `all(botOK)` is emitted. */
  method ColourBottles(rows: seq<Row>, nvars: nat, order: seq<string>) returns (status: map<string, Status>, emitted: Option<bool>)
    requires forall i, j :: 0 <= i < j < |order| ==> order[i] != order[j]
    ensures forall b :: b in status <==> b in order
    ensures forall b :: b in status ==> status[b] == StatusOf(rows, nvars, b)
    ensures emitted == if order == [] then None else Some(forall b :: b in order ==> !Conflicted(rows, nvars, b))
  {
    status := map[];
    var botOK: set<bool> := {};
    emitted := None;
    for i := 0 to |order|
      invariant forall b :: b in status <==> b in order[..i]
      invariant forall b :: b in status ==> status[b] == StatusOf(rows, nvars, b)
      invariant (false !in botOK) <==> forall b :: b in order[..i] ==> !Conflicted(rows, nvars, b)
      invariant emitted == if i == 0 then None else Some(false !in botOK)
    {
      var bottle := order[i];
      var found := FindRows(rows, nvars, bottle);
      assert order[..i + 1] == order[..i] + [bottle];
      if |found| > 1 {
        status := status[bottle := Conflict];
        botOK := botOK + {false};
        assert Conflicted(rows, nvars, bottle);
      } else {
        status := status[bottle := Ok];
        ghost var before := botOK;
        botOK := botOK + {true};
        assert (false in botOK) == (false in before);
        assert !Conflicted(rows, nvars, bottle);
      }
      emitted := Some(false !in botOK);
    }
    assert order[..|order|] == order;
  }

  /** The rows holding `bottle`, read from the bottle columns. */
  method FindRows(rows: seq<Row>, nvars: nat, bottle: string) returns (found: set<int>)
    ensures found == BottleRows(rows, nvars, bottle)
  {
    found := {};
    for row := 0 to |rows|
      invariant found == set r | 0 <= r < row && InRow(rows, r, nvars, bottle)
    {
      var hit := false;
      for column := 0 to nvars
        invariant hit <==> exists v :: 0 <= v < column && BottleText(rows, row, v) == bottle
      {
        if BottleText(rows, row, column) == bottle {
          hit := true;
        }
      }
      if hit {
        found := found + {row};
      }
    }
  }

  // ---------------------------------------------------------------------
  // How the grid operations affect the verdict

  /** Appending an empty row changes neither the bottles in use nor where they occur. */
  lemma AddRowKeepsVerdict(rows: seq<Row>, nvars: nat, depth: string, b: string)
    ensures Bottles(rows + [NewRow(depth, nvars)], nvars) == Bottles(rows, nvars)
    ensures BottleRows(rows + [NewRow(depth, nvars)], nvars, b) == BottleRows(rows, nvars, b) || b == ""
  {
    var after := rows + [NewRow(depth, nvars)];
    assert forall r, v :: 0 <= r < |rows| ==> BottleText(after, r, v) == BottleText(rows, r, v);
    assert forall v :: 0 <= v < nvars ==> BottleText(after, |rows|, v) == "";
    forall x
      ensures x in Bottles(after, nvars) <==> x in Bottles(rows, nvars)
    {
      BottlesMembership(after, nvars, x);
      BottlesMembership(rows, nvars, x);
    }
  }

  /** Removing a row never creates a conflict and never adds a bottle. */
  lemma RemoveRowNoNewConflict(rows: seq<Row>, nvars: nat, k: int, b: string)
    requires 0 <= k < |rows|
    ensures Bottles(rows[..k] + rows[k + 1..], nvars) <= Bottles(rows, nvars)
    ensures Conflicted(rows[..k] + rows[k + 1..], nvars, b) ==> Conflicted(rows, nvars, b)
  {
    var after := rows[..k] + rows[k + 1..];
    assert forall r, v :: 0 <= r < |after| ==>
      BottleText(after, r, v) == BottleText(rows, if r < k then r else r + 1, v);
    forall x | x in Bottles(after, nvars)
      ensures x in Bottles(rows, nvars)
    {
      BottlesMembership(after, nvars, x);
      BottlesMembership(rows, nvars, x);
      var r, v :| 0 <= r < |after| && 0 <= v < nvars && BottleText(after, r, v) == x;
      assert BottleText(rows, if r < k then r else r + 1, v) == x;
    }
    ConflictedIffTwoRows(after, nvars, b);
    ConflictedIffTwoRows(rows, nvars, b);
    if Conflicted(after, nvars, b) {
      var r1, r2 :| 0 <= r1 < r2 < |after| && InRow(after, r1, nvars, b) && InRow(after, r2, nvars, b);
      var s1, s2 := if r1 < k then r1 else r1 + 1, if r2 < k then r2 else r2 + 1;
      var v1 :| 0 <= v1 < nvars && BottleText(after, r1, v1) == b;
      var v2 :| 0 <= v2 < nvars && BottleText(after, r2, v2) == b;
      assert BottleText(rows, s1, v1) == b && BottleText(rows, s2, v2) == b;
      assert 0 <= s1 < s2 < |rows| && InRow(rows, s1, nvars, b) && InRow(rows, s2, nvars, b);
    }
  }

  /** The guard's purpose: a bulk assign whose selection stays in one row, of a
      bottle that no other row holds, keeps a conflict-free grid conflict-free. */
  lemma AssignWithinOneRowKeepsAllOk(before: seq<Row>, after: seq<Row>, nvars: nat, selection: seq<Index>, text: string)
    requires WellFormed(before, nvars)
    requires AssignedFrom(before, after, selection, text)
    requires SingleRow(selection)
    requires text == "" || BottleRows(before, nvars, text) <= SelectedRows(selection)
    requires AllOk(before, nvars)
    ensures AllOk(after, nvars)
  {
    forall b | b in Bottles(after, nvars)
      ensures !Conflicted(after, nvars, b)
    {
      BottlesMembership(after, nvars, b);
      var touched := BottleRows(after, nvars, b);
      if b == text {
        forall r | r in touched
          ensures r in SelectedRows(selection)
        {
          var v :| 0 <= v < nvars && BottleText(after, r, v) == b;
          if Index(r, v + 2) !in selection {
            assert BottleText(before, r, v) == b;
            assert r in BottleRows(before, nvars, text);
          }
        }
        SubsetCardinality(touched, SelectedRows(selection));
      } else {
        forall r | r in touched
          ensures r in BottleRows(before, nvars, b)
        {
          var v :| 0 <= v < nvars && BottleText(after, r, v) == b;
          assert BottleText(before, r, v) == b;
        }
        var r, v :| 0 <= r < |after| && 0 <= v < nvars && BottleText(after, r, v) == b;
        assert BottleText(before, r, v) == b;
        BottlesMembership(before, nvars, b);
        SubsetCardinality(touched, BottleRows(before, nvars, b));
      }
    }
  }

  /** Without the guard one bulk assign can put a bottle at two depths. */
  lemma TwoRowAssignConflicts(before: seq<Row>, after: seq<Row>)
    requires |before| == 2 && WellFormed(before, 1)
    requires AssignedFrom(before, after, [Index(0, 2), Index(1, 2)], "3")
    ensures !SingleRow([Index(0, 2), Index(1, 2)])
    ensures "3" in Bottles(after, 1) && Conflicted(after, 1, "3")
  {
    assert SelectedRows([Index(0, 2), Index(1, 2)]) == {0, 1};
    assert BottleText(after, 0, 0) == "3" && BottleText(after, 1, 0) == "3";
    BottlesMembership(after, 1, "3");
    ConflictedIffTwoRows(after, 1, "3");
    assert InRow(after, 0, 1, "3") && InRow(after, 1, 1, "3");
  }

  // ---------------------------------------------------------------------
  // findItems as written

  /** The rows `findItems(bottle, MatchExactly)` reports: it matches the text of
      every column, the depth and the observation included. */
  function FoundRows(rows: seq<Row>, nvars: nat, b: string): (found: set<int>)
    ensures BottleRows(rows, nvars, b) <= found
    ensures forall r :: r in found ==> 0 <= r < |rows|
  {
    set r | 0 <= r < |rows| && (rows[r].depth == b || None2String(rows[r].obs) == b || InRow(rows, r, nvars, b))
  }

  predicate ConflictedAsWritten(rows: seq<Row>, nvars: nat, b: string) {
    |FoundRows(rows, nvars, b)| > 1
  }

  /** The search over all columns flags every conflict the bottle columns show,
      and the same ones when no depth or observation reads as that bottle. */
  lemma AsWrittenIsStricter(rows: seq<Row>, nvars: nat, b: string)
    ensures Conflicted(rows, nvars, b) ==> ConflictedAsWritten(rows, nvars, b)
    ensures (forall r :: 0 <= r < |rows| ==> rows[r].depth != b && None2String(rows[r].obs) != b) ==>
            FoundRows(rows, nvars, b) == BottleRows(rows, nvars, b)
  {
    SubsetCardinality(BottleRows(rows, nvars, b), FoundRows(rows, nvars, b));
  }

  /** A depth typed as a bare "5" makes bottle 5, used at one depth only, read
      as a conflict. */
  lemma DepthCellCountedAsWritten()
    ensures var rows := [Row("5", None, [None]), Row("25 m", None, [Some("5")])];
            "5" in Bottles(rows, 1) && ConflictedAsWritten(rows, 1, "5") && !Conflicted(rows, 1, "5")
  {
    var rows := [Row("5", None, [None]), Row("25 m", None, [Some("5")])];
    assert BottleText(rows, 1, 0) == "5";
    BottlesMembership(rows, 1, "5");
    assert InRow(rows, 1, 1, "5");
    assert FoundRows(rows, 1, "5") == {0, 1};
    assert !InRow(rows, 0, 1, "5") by {
      assert BottleText(rows, 0, 0) == "";
    }
    assert BottleRows(rows, 1, "5") == {1};
  }
}
