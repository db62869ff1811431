/** The single-record update of `update_file` (app.py:252-275): the first row
    whose File Path equals the requested path gets the requested Delete value,
    and the group statuses are computed again. The rows are dictionaries
    updated in place, so the table is an array here. */
module Update {
  import opened Records
  import opened Statuses

  /** The position of the first row whose path is `p`, if any. */
  function FirstWithPath(rows: seq<Row>, p: string): (r: Option<nat>)
    ensures r.Some? ==> r.value < |rows| && rows[r.value].path == p
    ensures r.Some? ==> forall j :: 0 <= j < r.value ==> rows[j].path != p
    ensures r.None? ==> forall j :: 0 <= j < |rows| ==> rows[j].path != p
    decreases |rows|
  {
    if rows == [] then None
    else
      var n := |rows| - 1;
      assert forall j :: 0 <= j < n ==> rows[..n][j] == rows[j];
      var r := FirstWithPath(rows[..n], p);
      if r.Some? then r else if rows[n].path == p then Some(n) else None
  }

  /** The table after the update loop (app.py:263-267). */
  function Updated(rows: seq<Row>, p: string, v: string): (s: seq<Row>)
    ensures |s| == |rows|
    ensures forall j :: 0 <= j < |rows| ==> s[j] == rows[j].(delete := s[j].delete)
    ensures forall j :: 0 <= j < |rows| && rows[j].path == p && (forall k :: 0 <= k < j ==> rows[k].path != p) ==>
      s[j].delete == v
    ensures forall j :: 0 <= j < |rows| && (rows[j].path != p || exists k :: 0 <= k < j && rows[k].path == p) ==>
      s[j] == rows[j]
  {
    match FirstWithPath(rows, p)
    case None => rows
    case Some(i) => rows[i := rows[i].(delete := v)]
  }

  /** The update loop of `update_file` (app.py:263-267). */
  method UpdateFile(a: array<Row>, p: string, v: string)
    modifies a
    ensures a[..] == Updated(old(a[..]), p, v)
  {
    var i := 0;
    while i < a.Length
      invariant 0 <= i <= a.Length
      invariant a[..] == old(a[..])
      invariant forall j :: 0 <= j < i ==> a[j].path != p
    {
      if a[i].path == p {
        FirstWithPathIs(a[..], p, i);
        a[i] := a[i].(delete := v);
        break;
      }
      i := i + 1;
    }
  }

  /** A matching position with no match before it is the first match. */
  lemma FirstWithPathIs(rows: seq<Row>, p: string, i: nat)
    requires i < |rows| && rows[i].path == p
    requires forall j :: 0 <= j < i ==> rows[j].path != p
    ensures FirstWithPath(rows, p) == Some(i)
  {
  }

  /** Sending the same update twice has the effect of sending it once. */
  lemma UpdateIsIdempotent(rows: seq<Row>, p: string, v: string)
    ensures Updated(Updated(rows, p, v), p, v) == Updated(rows, p, v)
  {
    var s := Updated(rows, p, v);
    match FirstWithPath(rows, p)
    case None =>
    case Some(i) =>
      FirstWithPathIs(s, p, i);
  }

  /** The update leaves the status of every group alone except, perhaps, the
      group of the row it changed. */
  lemma UpdateKeepsOtherStatuses(rows: seq<Row>, p: string, v: string, g: int)
    requires g in GroupStatuses(rows)
    requires FirstWithPath(rows, p).Some? ==> !InGroup(rows[FirstWithPath(rows, p).value], g)
    ensures g in GroupStatuses(Updated(rows, p, v))
    ensures GroupStatuses(Updated(rows, p, v))[g] == GroupStatuses(rows)[g]
  {
    var s := Updated(rows, p, v);
    assert g in GroupStatuses(s) by {
      GroupStatusesKeys(rows);
      GroupStatusesKeys(s);
      var j :| 0 <= j < |rows| && InGroup(rows[j], g);
      assert InGroup(s[j], g);
    }
    assert Members(s, g) == Members(rows, g) by {
      SameGroupsSameIndices(rows, s, g);
      MembersUntouched(rows, s, g);
    }
  }

  /** When the update misses group `g`, the rows of `g` are the same rows as before. */
  lemma MembersUntouched(rows: seq<Row>, s: seq<Row>, g: int)
    requires |s| == |rows| && Indices(s, g) == Indices(rows, g)
    requires forall j :: 0 <= j < |rows| && InGroup(rows[j], g) ==> s[j] == rows[j]
    ensures Members(s, g) == Members(rows, g)
  {
    var idx := Indices(rows, g);
    forall q | 0 <= q < |idx|
      ensures s[idx[q]] == rows[idx[q]]
    {
      assert idx[q] in idx;
    }
  }
}
