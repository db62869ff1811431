/** The status the web page shows for each duplicate group
    (`get_group_statuses`, app.py:277-300): rows are gathered by their
    Duplicate Group cell, and each group is judged by its size and by how many
    of its rows are not marked for deletion. */
module Statuses {
  import opened Records
  import opened Text

  datatype Status = OnlyOneFile | AllToBeDeleted | MultipleDuplicates

  /** The text the page shows for a status. */
  function Label(s: Status): string {
    match s
    case OnlyOneFile => "Only 1 file"
    case AllToBeDeleted => "All to be Deleted"
    case MultipleDuplicates => "Multiple Duplicates"
  }

  /** A row counts as deleted when its Delete cell, lowered, reads "yes". */
  predicate MarkedForDeletion(r: Row) {
    Lower(r.delete) == "yes"
  }

  /** A row belongs to group `g` when its Duplicate Group cell is truthy and equal to `g`. */
  predicate InGroup(r: Row, g: int) {
    HasGroup(r) && r.group.value == g
  }

  /** The positions of the rows of group `g`, in table order: the member list
      the grouping loop builds for `g` (app.py:279-285, 312-318). */
  function Indices(rows: seq<Row>, g: int): (idx: seq<nat>)
    ensures forall j {:trigger j in idx} :: j in idx <==> 0 <= j < |rows| && InGroup(rows[j], g)
    ensures forall q :: 0 <= q < |idx| ==> idx[q] < |rows|
    ensures forall q, q' :: 0 <= q < q' < |idx| ==> idx[q] < idx[q']
    decreases |rows|
  {
    if rows == [] then []
    else
      var n := |rows| - 1;
      assert forall j :: 0 <= j < n ==> rows[..n][j] == rows[j];
      Indices(rows[..n], g) + (if InGroup(rows[n], g) then [n] else [])
  }

  /** The rows of group `g`, in table order. */
  function Members(rows: seq<Row>, g: int): (m: seq<Row>)
    ensures |m| == |Indices(rows, g)|
    ensures forall r :: r in m <==> r in rows && InGroup(r, g)
  {
    var idx := Indices(rows, g);
    var m := seq(|idx|, q requires 0 <= q < |idx| => rows[idx[q]]);
    assert forall r :: r in m <==> r in rows && InGroup(r, g) by {
      forall r | r in rows && InGroup(r, g)
        ensures r in m
      {
        var j :| 0 <= j < |rows| && rows[j] == r;
        assert j in idx;
        var q :| 0 <= q < |idx| && idx[q] == j;
        assert m[q] == r;
      }
      forall r | r in m
        ensures r in rows && InGroup(r, g)
      {
        var q :| 0 <= q < |idx| && m[q] == r;
        assert idx[q] in idx;
      }
    }
    m
  }

  /** How many rows of `m` are not marked for deletion (app.py:289). */
  function Remaining(m: seq<Row>): (n: nat)
    ensures n <= |m|
    decreases |m|
  {
    if m == [] then 0
    else Remaining(m[..|m| - 1]) + (if MarkedForDeletion(m[|m| - 1]) then 0 else 1)
  }

  /** The decision table of app.py:291-298. */
  function Decide(size: nat, remaining: nat): Status {
    if size == 1 then OnlyOneFile
    else if remaining == 0 then AllToBeDeleted
    else if remaining == 1 then OnlyOneFile
    else MultipleDuplicates
  }

  /** The truthy Duplicate Group values of the table. */
  function GroupIds(rows: seq<Row>): set<int> {
    set r | r in rows && HasGroup(r) :: r.group.value
  }

  /** `get_group_statuses`: one status per group that occurs in the table. */
  function GroupStatuses(rows: seq<Row>): map<int, Status> {
    map g | g in GroupIds(rows) :: Decide(|Members(rows, g)|, Remaining(Members(rows, g)))
  }

  /** No row is left standing exactly when every row is marked. */
  lemma {:induction false} NoneRemaining(m: seq<Row>)
    ensures Remaining(m) == 0 <==> forall r :: r in m ==> MarkedForDeletion(r)
    decreases |m|
  {
    if m != [] {
      var n := |m| - 1;
      NoneRemaining(m[..n]);
      assert m == m[..n] + [m[n]];
    }
  }

  /** Two different positions of `m` hold rows not marked for deletion. */
  predicate TwoUnmarked(m: seq<Row>) {
    exists i, j :: 0 <= i < j < |m| && !MarkedForDeletion(m[i]) && !MarkedForDeletion(m[j])
  }

  /** At least two rows are left standing exactly when two distinct positions hold unmarked rows. */
  lemma TwoRemaining(m: seq<Row>)
    ensures Remaining(m) >= 2 <==> TwoUnmarked(m)
  {
    if Remaining(m) >= 2 {
      TwoFromRemaining(m);
    }
    if TwoUnmarked(m) {
      var i, j :| 0 <= i < j < |m| && !MarkedForDeletion(m[i]) && !MarkedForDeletion(m[j]);
      UnmarkedPairCounts(m, i, j);
    }
  }

  /** Two rows left standing are two unmarked rows at distinct positions. */
  lemma {:induction false} TwoFromRemaining(m: seq<Row>)
    requires Remaining(m) >= 2
    ensures TwoUnmarked(m)
    decreases |m|
  {
    var n := |m| - 1;
    var init := m[..n];
    if MarkedForDeletion(m[n]) {
      TwoFromRemaining(init);
      var i, j :| 0 <= i < j < n && !MarkedForDeletion(init[i]) && !MarkedForDeletion(init[j]);
      assert m[i] == init[i] && m[j] == init[j];
      assert 0 <= i < j < |m| && !MarkedForDeletion(m[i]) && !MarkedForDeletion(m[j]);
    } else {
      NoneRemaining(init);
      var r :| r in init && !MarkedForDeletion(r);
      var i :| 0 <= i < n && init[i] == r;
      assert m[i] == init[i];
      assert 0 <= i < n < |m| && !MarkedForDeletion(m[i]) && !MarkedForDeletion(m[n]);
    }
  }

  /** An unmarked row is left standing. */
  lemma {:induction false} UnmarkedCounts(m: seq<Row>, i: nat)
    requires i < |m| && !MarkedForDeletion(m[i])
    ensures Remaining(m) >= 1
    decreases |m|
  {
    var n := |m| - 1;
    if i < n {
      assert m[..n][i] == m[i];
      UnmarkedCounts(m[..n], i);
    }
  }

  /** Two unmarked rows are both left standing. */
  lemma {:induction false} UnmarkedPairCounts(m: seq<Row>, i: nat, j: nat)
    requires i < j < |m| && !MarkedForDeletion(m[i]) && !MarkedForDeletion(m[j])
    ensures Remaining(m) >= 2
    decreases |m|
  {
    var n := |m| - 1;
    assert m[..n][i] == m[i];
    if j < n {
      assert m[..n][j] == m[j];
      UnmarkedPairCounts(m[..n], i, j);
    } else {
      UnmarkedCounts(m[..n], i);
    }
  }

  /** The groups that get a status are exactly the truthy Duplicate Group values. */
  lemma GroupStatusesKeys(rows: seq<Row>)
    ensures forall g :: g in GroupStatuses(rows) <==> exists i :: 0 <= i < |rows| && InGroup(rows[i], g)
  {
    forall g
      ensures g in GroupStatuses(rows) <==> exists i :: 0 <= i < |rows| && InGroup(rows[i], g)
    {
      if g in GroupStatuses(rows) {
        var r :| r in rows && HasGroup(r) && r.group.value == g;
        var i :| 0 <= i < |rows| && rows[i] == r;
      }
      if exists i :: 0 <= i < |rows| && InGroup(rows[i], g) {
        var i :| 0 <= i < |rows| && InGroup(rows[i], g);
        assert rows[i] in rows;
      }
    }
  }

  /** The status of a group, stated on its rows: "All to be Deleted" when it
      has several rows and all are marked, "Multiple Duplicates" when two of
      its rows are unmarked, "Only 1 file" when it has one row or exactly one
      unmarked row. */
  lemma StatusOfGroup(rows: seq<Row>, g: int)
    requires g in GroupStatuses(rows)
    ensures |Members(rows, g)| >= 1
    ensures var m := Members(rows, g);
      GroupStatuses(rows)[g] == AllToBeDeleted <==> |m| > 1 && forall r :: r in m ==> MarkedForDeletion(r)
    ensures var m := Members(rows, g);
      GroupStatuses(rows)[g] == MultipleDuplicates <==> TwoUnmarked(m)
    ensures var m := Members(rows, g);
      GroupStatuses(rows)[g] == OnlyOneFile <==>
        |m| == 1 || ((exists r :: r in m && !MarkedForDeletion(r)) && !TwoUnmarked(m))
  {
    var m := Members(rows, g);
    var r :| r in rows && HasGroup(r) && r.group.value == g;
    assert r in m;
    NoneRemaining(m);
    TwoRemaining(m);
  }

  /** The text `get_group_statuses` returns for a group is one of the three
      labels, and each label is characterised by the group's rows. */
  lemma StatusTextOfGroup(rows: seq<Row>, g: int)
    requires g in GroupStatuses(rows)
    ensures var t := Label(GroupStatuses(rows)[g]);
      t == "Only 1 file" || t == "All to be Deleted" || t == "Multiple Duplicates"
    ensures var m, t := Members(rows, g), Label(GroupStatuses(rows)[g]);
      t == "All to be Deleted" <==> |m| > 1 && forall r :: r in m ==> MarkedForDeletion(r)
    ensures var m, t := Members(rows, g), Label(GroupStatuses(rows)[g]);
      t == "Multiple Duplicates" <==> TwoUnmarked(m)
    ensures var m, t := Members(rows, g), Label(GroupStatuses(rows)[g]);
      t == "Only 1 file" <==> |m| == 1 || ((exists r :: r in m && !MarkedForDeletion(r)) && !TwoUnmarked(m))
  {
    StatusOfGroup(rows, g);
  }

  /** "Yes" in the Delete cell marks a row, "No" does not. */
  lemma YesMarksNoDoesNot(r: Row)
    ensures r.delete == "Yes" ==> MarkedForDeletion(r)
    ensures r.delete == "No" ==> !MarkedForDeletion(r)
  {
    if r.delete == "Yes" {
      assert Lower(r.delete) == "yes";
    }
    if r.delete == "No" {
      assert Lower(r.delete)[0] == 'n';
    }
  }

  /** Two tables that differ only in Delete cells have the same groups. */
  lemma {:induction false} SameGroupsSameIndices(rows: seq<Row>, now: seq<Row>, g: int)
    requires |now| == |rows| && forall j :: 0 <= j < |rows| ==> now[j] == rows[j].(delete := now[j].delete)
    ensures Indices(now, g) == Indices(rows, g)
    decreases |rows|
  {
    if rows != [] {
      var n := |rows| - 1;
      SameGroupsSameIndices(rows[..n], now[..n], g);
    }
  }
}
