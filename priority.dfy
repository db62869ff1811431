/** Folder-priority resolution (`apply_folder_priority`, app.py:302-342):
    the rows of each duplicate group are sorted by the position of their
    directory in the priority list (unlisted directories last), then by path;
    the first row of the sorted group is kept and every other row of the group
    is marked for deletion. The rows are shared with the table, so the Delete
    cells are overwritten in place: the table is an array here. */
module Priority {
  import opened Records
  import opened Text
  import opened Statuses

  /** `priority_folders.index(d)` when `d` is listed, else the list's length
      (app.py:325). */
  function Rank(d: string, pr: seq<string>): (k: nat)
    ensures k <= |pr|
    ensures k < |pr| ==> pr[k] == d
    ensures forall j :: 0 <= j < k ==> pr[j] != d
    decreases |pr|
  {
    if pr == [] then 0
    else if pr[0] == d then 0
    else
      var k := Rank(d, pr[1..]);
      assert forall j :: 1 <= j < k + 1 ==> pr[j] == pr[1..][j - 1];
      1 + k
  }

  /** `x` sorts strictly before `y` under the key of app.py:324-327. */
  predicate Before(x: Row, y: Row, pr: seq<string>) {
    var rx, ry := Rank(x.directory, pr), Rank(y.directory, pr);
    rx < ry || (rx == ry && Less(x.path, y.path))
  }

  /** `x` and `y` have the same sort key. */
  predicate SameKey(x: Row, y: Row, pr: seq<string>) {
    Rank(x.directory, pr) == Rank(y.directory, pr) && x.path == y.path
  }

  /** The sort key orders rows strictly, and rows it does not order have equal keys. */
  lemma BeforeIsStrictOrder(x: Row, y: Row, z: Row, pr: seq<string>)
    ensures !Before(x, x, pr)
    ensures Before(x, y, pr) && Before(y, z, pr) ==> Before(x, z, pr)
    ensures Before(x, y, pr) || Before(y, x, pr) || SameKey(x, y, pr)
  {
    LessIrreflexive(x.path);
    LessTotal(x.path, y.path);
    if Before(x, y, pr) && Before(y, z, pr) && Less(x.path, y.path) && Less(y.path, z.path) {
      LessTransitive(x.path, y.path, z.path);
    }
  }

  /** Where, among the positions `idx` of `rows`, the first row of a stable
      sort by the key is: the loop of app.py:330-334 keeps that row. */
  function BestAt(rows: seq<Row>, idx: seq<nat>, pr: seq<string>): (p: nat)
    requires idx != [] && forall q :: 0 <= q < |idx| ==> idx[q] < |rows|
    ensures p < |idx|
    decreases |idx|
  {
    if |idx| == 1 then 0
    else
      var n := |idx| - 1;
      var b := BestAt(rows, idx[..n], pr);
      if Before(rows[idx[n]], rows[idx[b]], pr) then n else b
  }

  /** Position `p` of `idx` holds the first row of a stable sort: nothing
      sorts before it, and it sorts strictly before every row that precedes it. */
  predicate FirstOfSortAt(rows: seq<Row>, idx: seq<nat>, pr: seq<string>, p: nat)
    requires p < |idx| && forall q :: 0 <= q < |idx| ==> idx[q] < |rows|
  {
    && (forall q :: 0 <= q < |idx| ==> !Before(rows[idx[q]], rows[idx[p]], pr))
    && (forall q :: 0 <= q < p ==> Before(rows[idx[p]], rows[idx[q]], pr))
  }

  lemma {:induction false} BestAtIsFirstOfSort(rows: seq<Row>, idx: seq<nat>, pr: seq<string>)
    requires idx != [] && forall q :: 0 <= q < |idx| ==> idx[q] < |rows|
    ensures FirstOfSortAt(rows, idx, pr, BestAt(rows, idx, pr))
    decreases |idx|
  {
    if |idx| == 1 {
      BeforeIsStrictOrder(rows[idx[0]], rows[idx[0]], rows[idx[0]], pr);
    } else {
      var n := |idx| - 1;
      var b := BestAt(rows, idx[..n], pr);
      BestAtIsFirstOfSort(rows, idx[..n], pr);
      if Before(rows[idx[n]], rows[idx[b]], pr) {
        NewBestStep(rows, idx, pr, b);
      } else {
        OldBestStep(rows, idx, pr, b);
      }
    }
  }

  lemma NewBestStep(rows: seq<Row>, idx: seq<nat>, pr: seq<string>, b: nat)
    requires |idx| > 1 && forall q :: 0 <= q < |idx| ==> idx[q] < |rows|
    requires b < |idx| - 1 && FirstOfSortAt(rows, idx[..|idx| - 1], pr, b)
    requires Before(rows[idx[|idx| - 1]], rows[idx[b]], pr)
    ensures FirstOfSortAt(rows, idx, pr, |idx| - 1)
  {
    var n := |idx| - 1;
    var last := rows[idx[n]];
    forall q | 0 <= q < n
      ensures !Before(rows[idx[q]], last, pr) && Before(last, rows[idx[q]], pr)
    {
      assert rows[idx[q]] == rows[idx[..n][q]];
      NewBestBeatsEarlier(rows[idx[b]], last, rows[idx[q]], pr);
    }
    BeforeIsStrictOrder(last, last, last, pr);
  }

  lemma OldBestStep(rows: seq<Row>, idx: seq<nat>, pr: seq<string>, b: nat)
    requires |idx| > 1 && forall q :: 0 <= q < |idx| ==> idx[q] < |rows|
    requires b < |idx| - 1 && FirstOfSortAt(rows, idx[..|idx| - 1], pr, b)
    requires !Before(rows[idx[|idx| - 1]], rows[idx[b]], pr)
    ensures FirstOfSortAt(rows, idx, pr, b)
  {
    var n := |idx| - 1;
    assert forall q :: 0 <= q < n ==> rows[idx[q]] == rows[idx[..n][q]];
  }

  /** A row that sorts before the best so far sorts before every row the best
      did not lose to. */
  lemma NewBestBeatsEarlier(best: Row, last: Row, other: Row, pr: seq<string>)
    requires Before(last, best, pr) && !Before(other, best, pr)
    ensures !Before(other, last, pr) && Before(last, other, pr)
  {
    BeforeIsStrictOrder(other, last, best, pr);
    BeforeIsStrictOrder(best, other, other, pr);
    BeforeIsStrictOrder(last, best, other, pr);
  }

  /** The row of group `g` that the resolver keeps. */
  function Keeper(rows: seq<Row>, g: int, pr: seq<string>): (k: nat)
    requires Indices(rows, g) != []
    ensures k in Indices(rows, g)
  {
    var idx := Indices(rows, g);
    idx[BestAt(rows, idx, pr)]
  }

  /** Row `j` after resolution: in a group, Delete is "No" for the group's
      keeper and "Yes" otherwise; outside any group the row is untouched. */
  function ResolvedRow(rows: seq<Row>, pr: seq<string>, j: nat): Row
    requires j < |rows|
  {
    if HasGroup(rows[j]) then
      var g := rows[j].group.value;
      assert j in Indices(rows, g);
      rows[j].(delete := if j == Keeper(rows, g, pr) then "No" else "Yes")
    else rows[j]
  }

  /** The table after `apply_folder_priority`. Only Delete cells of grouped rows change. */
  function Resolved(rows: seq<Row>, pr: seq<string>): (s: seq<Row>)
    ensures |s| == |rows|
    ensures forall j :: 0 <= j < |rows| ==> s[j] == rows[j].(delete := s[j].delete)
    ensures forall j :: 0 <= j < |rows| && !HasGroup(rows[j]) ==> s[j] == rows[j]
  {
    seq(|rows|, j requires 0 <= j < |rows| => ResolvedRow(rows, pr, j))
  }

  // The imperative resolver.

  /** The groups of `rows`, each listed once, in the order their first row
      appears: the keys of `duplicate_groups` in insertion order (app.py:312-318). */
  function GroupOrder(rows: seq<Row>): seq<int>
    decreases |rows|
  {
    if rows == [] then []
    else
      var n := |rows| - 1;
      var ids := GroupOrder(rows[..n]);
      if HasGroup(rows[n]) && rows[n].group.value !in ids then ids + [rows[n].group.value] else ids
  }

  /** `GroupOrder` lists every group of the table exactly once, and a group
      listed earlier has its first row earlier. */
  lemma GroupOrderByFirstRow(rows: seq<Row>)
    ensures var ids := GroupOrder(rows);
      && Distinct(ids)
      && (forall j :: 0 <= j < |rows| && HasGroup(rows[j]) ==> rows[j].group.value in ids)
      && (forall s :: 0 <= s < |ids| ==> Indices(rows, ids[s]) != [])
      && (forall s, t :: 0 <= s < t < |ids| ==> Indices(rows, ids[s])[0] < Indices(rows, ids[t])[0])
  {
    GroupOrderCover(rows);
    GroupOrderSorted(rows);
    var ids := GroupOrder(rows);
    forall s | 0 <= s < |ids|
      ensures Indices(rows, ids[s]) != []
    {
      assert ids[s] in ids;
    }
  }

  /** `GroupOrder` repeats no group, misses none, and lists only groups with rows. */
  lemma {:induction false} GroupOrderCover(rows: seq<Row>)
    ensures Distinct(GroupOrder(rows))
    ensures forall j :: 0 <= j < |rows| && HasGroup(rows[j]) ==> rows[j].group.value in GroupOrder(rows)
    ensures forall g :: g in GroupOrder(rows) ==> Indices(rows, g) != []
    decreases |rows|
  {
    if rows != [] {
      var n := |rows| - 1;
      var init := rows[..n];
      var ids0, ids := GroupOrder(init), GroupOrder(rows);
      GroupOrderCover(init);
      forall j | 0 <= j < n
        ensures rows[j] == init[j]
      {
      }
      forall g | g in ids
        ensures Indices(rows, g) != []
      {
        IndicesSnoc(rows, n, g);
        assert rows[..n + 1] == rows;
      }
      if HasGroup(rows[n]) && rows[n].group.value !in ids0 {
        DistinctSnoc(ids0, rows[n].group.value);
      }
    }
  }

  /** Every group in `ids` has rows, and a group listed earlier has its first row earlier. */
  ghost predicate OrderedByFirstRow(rows: seq<Row>, ids: seq<int>) {
    && (forall g :: g in ids ==> Indices(rows, g) != [])
    && (forall s, t :: 0 <= s < t < |ids| ==> Indices(rows, ids[s])[0] < Indices(rows, ids[t])[0])
  }

  /** A group listed earlier by `GroupOrder` has its first row earlier. */
  lemma {:induction false} GroupOrderSorted(rows: seq<Row>)
    ensures OrderedByFirstRow(rows, GroupOrder(rows))
    decreases |rows|
  {
    if rows != [] {
      GroupOrderSorted(rows[..|rows| - 1]);
      GroupOrderSortedStep(rows);
    }
  }

  /** One row appended to a table whose group order is already ordered by first row. */
  lemma GroupOrderSortedStep(rows: seq<Row>)
    requires rows != []
    requires OrderedByFirstRow(rows[..|rows| - 1], GroupOrder(rows[..|rows| - 1]))
    ensures OrderedByFirstRow(rows, GroupOrder(rows))
  {
    var n := |rows| - 1;
    var init := rows[..n];
    var ids0, ids := GroupOrder(init), GroupOrder(rows);
    GroupOrderCover(init);
    forall h | h in ids0
      ensures Indices(rows, h) != [] && Indices(rows, h)[0] == Indices(init, h)[0] < n
    {
      FirstIndexStays(rows, h);
    }
    if HasGroup(rows[n]) && rows[n].group.value !in ids0 {
      var g := rows[n].group.value;
      assert ids == ids0 + [g];
      forall j | 0 <= j < n && HasGroup(rows[j])
        ensures rows[j].group.value != g
      {
        assert init[j] == rows[j];
      }
      OnlyLastRow(rows, g);
      OrderNew(rows, init, ids0, g, n);
    } else {
      assert ids == ids0;
      OrderKeep(rows, init, ids0);
    }
  }

  /** A group that no earlier row belongs to has the last row as its only row. */
  lemma OnlyLastRow(rows: seq<Row>, g: int)
    requires rows != [] && HasGroup(rows[|rows| - 1]) && rows[|rows| - 1].group.value == g
    requires forall j :: 0 <= j < |rows| - 1 && HasGroup(rows[j]) ==> rows[j].group.value != g
    ensures Indices(rows, g) == [|rows| - 1]
  {
    var n := |rows| - 1;
    NoEarlierMember(rows, n, g);
    IndicesSnoc(rows, n, g);
    assert rows[..n + 1] == rows;
  }

  lemma OrderKeep(rows: seq<Row>, init: seq<Row>, ids: seq<int>)
    requires OrderedByFirstRow(init, ids)
    requires forall h :: h in ids ==> Indices(rows, h) != [] && Indices(rows, h)[0] == Indices(init, h)[0]
    ensures OrderedByFirstRow(rows, ids)
  {
    forall s, t | 0 <= s < t < |ids|
      ensures Indices(rows, ids[s]) != [] && Indices(rows, ids[t]) != []
      ensures Indices(rows, ids[s])[0] < Indices(rows, ids[t])[0]
    {
      assert ids[s] in ids && ids[t] in ids;
    }
  }

  /** A group whose only row comes after every listed group's first row goes last. */
  lemma OrderNew(rows: seq<Row>, init: seq<Row>, ids: seq<int>, g: int, n: nat)
    requires OrderedByFirstRow(init, ids)
    requires forall h :: h in ids ==> Indices(rows, h) != [] && Indices(rows, h)[0] == Indices(init, h)[0] < n
    requires Indices(rows, g) == [n]
    ensures OrderedByFirstRow(rows, ids + [g])
  {
    var ids' := ids + [g];
    forall h | h in ids'
      ensures Indices(rows, h) != []
    {
    }
    forall s, t | 0 <= s < t < |ids'|
      ensures Indices(rows, ids'[s]) != [] && Indices(rows, ids'[t]) != []
      ensures Indices(rows, ids'[s])[0] < Indices(rows, ids'[t])[0]
    {
      assert ids'[s] == ids[s] && ids[s] in ids;
      if t < |ids| {
        assert ids'[t] == ids[t] && ids[t] in ids;
      }
    }
  }

  /** A group with a row before the last keeps its first row when the last row is added. */
  lemma FirstIndexStays(rows: seq<Row>, h: int)
    requires rows != [] && Indices(rows[..|rows| - 1], h) != []
    ensures Indices(rows, h) != []
    ensures Indices(rows, h)[0] == Indices(rows[..|rows| - 1], h)[0] < |rows| - 1
  {
    var n := |rows| - 1;
    IndicesSnoc(rows, n, h);
    assert rows[..n + 1] == rows;
  }

  /** A table whose rows carry groups 2, none, 1 and 2 lists group 2 before group 1. */
  lemma GroupOrderOfSample()
    ensures var r := Row("a", "d", "d/a", None, None, Some(2), "No");
      GroupOrder([r, r.(group := None), r.(group := Some(1)), r]) == [2, 1]
  {
    var r := Row("a", "d", "d/a", None, None, Some(2), "No");
    var rows := [r, r.(group := None), r.(group := Some(1)), r];
    assert rows[..1] == [r];
    assert rows[..2] == [r, r.(group := None)];
    assert rows[..3] == [r, r.(group := None), r.(group := Some(1))];
    assert rows[..1][..0] == [];
    assert rows[..2][..1] == rows[..1];
    assert rows[..3][..2] == rows[..2];
    assert rows[..4][..3] == rows[..3];
    assert rows[..4] == rows;
    assert GroupOrder(rows[..1]) == [2];
    assert GroupOrder(rows[..2]) == [2];
    assert GroupOrder(rows[..3]) == [2, 1];
  }

  /** The grouping loop (app.py:312-318): the groups in order of first
      appearance, and for each the positions of its rows. */
  method GroupPositions(a: array<Row>) returns (ids: seq<int>, groups: map<int, seq<nat>>)
    ensures GroupedUpTo(a[..], a.Length, ids, groups)
    ensures ids == GroupOrder(a[..])
  {
    ghost var rows := a[..];
    ids, groups := [], map[];
    var i := 0;
    while i < a.Length
      invariant 0 <= i <= a.Length
      invariant GroupedUpTo(rows, i, ids, groups)
      invariant ids == GroupOrder(rows[..i])
    {
      assert rows[..i + 1][..i] == rows[..i];
      if HasGroup(a[i]) {
        var g := a[i].group.value;
        if g !in groups {
          NewGroupStep(rows, i, ids, groups);
          ids := ids + [g];
          groups := groups[g := []];
          assert groups[g := groups[g] + [i]] == groups[g := [i]];
        } else {
          OldGroupStep(rows, i, ids, groups);
        }
        groups := groups[g := groups[g] + [i]];
      } else {
        NoGroupStep(rows, i, ids, groups);
      }
      i := i + 1;
    }
    assert rows[..i] == rows;
  }

  /** After the grouping loop has seen the first `i` rows: `ids` lists, once
      each and in order of first appearance, the groups met so far, and
      `groups` maps each to the positions of its rows among them. */
  ghost predicate GroupedUpTo(rows: seq<Row>, i: nat, ids: seq<int>, groups: map<int, seq<nat>>)
    requires i <= |rows|
  {
    && Distinct(ids)
    && (forall g :: g in groups <==> g in ids)
    && (forall g :: g in groups ==> groups[g] == Indices(rows[..i], g) && groups[g] != [])
    && (forall j :: 0 <= j < i && HasGroup(rows[j]) ==> rows[j].group.value in groups)
  }

  /** A row without a group changes nothing. */
  lemma NoGroupStep(rows: seq<Row>, i: nat, ids: seq<int>, groups: map<int, seq<nat>>)
    requires i < |rows| && GroupedUpTo(rows, i, ids, groups) && !HasGroup(rows[i])
    ensures GroupedUpTo(rows, i + 1, ids, groups)
  {
    forall g | g in groups
      ensures groups[g] == Indices(rows[..i + 1], g)
    {
      IndicesSnoc(rows, i, g);
    }
  }

  /** A row of a group already met is appended to its positions. */
  lemma OldGroupStep(rows: seq<Row>, i: nat, ids: seq<int>, groups: map<int, seq<nat>>)
    requires i < |rows| && GroupedUpTo(rows, i, ids, groups)
    requires HasGroup(rows[i]) && rows[i].group.value in groups
    ensures var g := rows[i].group.value;
      GroupedUpTo(rows, i + 1, ids, groups[g := groups[g] + [i]])
  {
    var g := rows[i].group.value;
    var groups' := groups[g := groups[g] + [i]];
    forall h | h in groups'
      ensures groups'[h] == Indices(rows[..i + 1], h)
    {
      IndicesSnoc(rows, i, h);
    }
  }

  /** A row of a group not met yet opens it. */
  lemma NewGroupStep(rows: seq<Row>, i: nat, ids: seq<int>, groups: map<int, seq<nat>>)
    requires i < |rows| && GroupedUpTo(rows, i, ids, groups)
    requires HasGroup(rows[i]) && rows[i].group.value !in groups
    ensures var g := rows[i].group.value;
      GroupedUpTo(rows, i + 1, ids + [g], groups[g := [i]])
  {
    var g := rows[i].group.value;
    var groups' := groups[g := [i]];
    NoEarlierMember(rows, i, g);
    forall h | h in groups'
      ensures groups'[h] == Indices(rows[..i + 1], h)
    {
      IndicesSnoc(rows, i, h);
    }
  }

  lemma IndicesSnoc(rows: seq<Row>, n: nat, g: int)
    requires n < |rows|
    ensures Indices(rows[..n + 1], g) == Indices(rows[..n], g) + (if InGroup(rows[n], g) then [n] else [])
  {
    assert rows[..n + 1][..n] == rows[..n];
  }

  lemma NoEarlierMember(rows: seq<Row>, n: nat, g: int)
    requires n <= |rows|
    requires forall j :: 0 <= j < n && HasGroup(rows[j]) ==> rows[j].group.value != g
    ensures Indices(rows[..n], g) == []
  {
    assert forall j :: 0 <= j < n ==> rows[..n][j] == rows[j];
    NoMemberNoIndices(rows[..n], g);
  }

  lemma {:induction false} NoMemberNoIndices(rows: seq<Row>, g: int)
    requires forall j :: 0 <= j < |rows| ==> !InGroup(rows[j], g)
    ensures Indices(rows, g) == []
    decreases |rows|
  {
    if rows != [] {
      var n := |rows| - 1;
      assert forall j :: 0 <= j < n ==> rows[..n][j] == rows[j];
      NoMemberNoIndices(rows[..n], g);
    }
  }

  /** `sorted(files, key=...)[0]` (app.py:324-327): where in `idx` the first
      row of a stable sort sits. */
  method FirstOfSort(a: array<Row>, idx: seq<nat>, pr: seq<string>) returns (p: nat)
    requires idx != [] && forall q :: 0 <= q < |idx| ==> idx[q] < a.Length
    ensures p == BestAt(a[..], idx, pr)
  {
    ghost var rows := a[..];
    p := 0;
    var k := 1;
    assert |idx[..1]| == 1;
    while k < |idx|
      invariant 1 <= k <= |idx|
      invariant p == BestAt(rows, idx[..k], pr)
    {
      BestAtStep(rows, idx, pr, k);
      var next, best := a[idx[k]], a[idx[p]];
      assert next == rows[idx[k]] && best == rows[idx[p]];
      if Before(next, best, pr) {
        p := k;
      }
      k := k + 1;
    }
    assert idx[..k] == idx;
  }

  /** One more position: the first of the sort moves to it exactly when its row sorts strictly first. */
  lemma BestAtStep(rows: seq<Row>, idx: seq<nat>, pr: seq<string>, k: nat)
    requires 1 <= k < |idx| && forall q :: 0 <= q < |idx| ==> idx[q] < |rows|
    ensures var b := BestAt(rows, idx[..k], pr);
      b < k && BestAt(rows, idx[..k + 1], pr) == if Before(rows[idx[k]], rows[idx[b]], pr) then k else b
  {
    assert idx[..k + 1][..k] == idx[..k];
  }

  /** The marking loop (app.py:330-334): Delete "No" for the row at position
      `p` of `idx`, "Yes" for the others. */
  method MarkGroup(a: array<Row>, idx: seq<nat>, p: nat)
    requires p < |idx| && forall q :: 0 <= q < |idx| ==> idx[q] < a.Length
    requires forall q, q' :: 0 <= q < q' < |idx| ==> idx[q] < idx[q']
    modifies a
    ensures forall j :: 0 <= j < a.Length ==>
      a[j] == if j in idx then old(a[j]).(delete := if j == idx[p] then "No" else "Yes") else old(a[j])
  {
    var k := 0;
    while k < |idx|
      invariant 0 <= k <= |idx|
      invariant forall j :: 0 <= j < a.Length ==>
        a[j] == if j in idx[..k] then old(a[j]).(delete := if j == idx[p] then "No" else "Yes") else old(a[j])
    {
      assert idx[..k + 1] == idx[..k] + [idx[k]];
      a[idx[k]] := a[idx[k]].(delete := if k == p then "No" else "Yes");
      k := k + 1;
    }
    assert idx[..k] == idx;
  }

  /** `apply_folder_priority` up to saving the table (app.py:311-334). */
  method ApplyFolderPriority(a: array<Row>, pr: seq<string>)
    modifies a
    ensures a[..] == Resolved(old(a[..]), pr)
  {
    ghost var rows := a[..];
    var ids, groups := GroupPositions(a);
    assert rows[..a.Length] == rows;
    var t := 0;
    while t < |ids|
      invariant 0 <= t <= |ids|
      invariant |rows| == a.Length && ResolvedFor(rows, pr, ids[..t], a[..])
    {
      var g := ids[t];
      GroupAt(rows, ids, groups, t);
      var idx := groups[g];
      var p := FirstOfSort(a, idx, pr);
      ResolvedForKeepsKeys(rows, pr, ids[..t], a[..]);
      SameKeysSameBest(rows, a[..], idx, pr);
      ghost var before := a[..];
      MarkGroup(a, idx, p);
      ResolveGroupStep(rows, pr, ids[..t], g, before, a[..], p);
      assert ids[..t + 1] == ids[..t] + [g];
      t := t + 1;
    }
    assert ids[..t] == ids;
  }

  /** `now` is `rows` with the groups in `done` resolved and the others untouched. */
  ghost predicate ResolvedFor(rows: seq<Row>, pr: seq<string>, done: seq<int>, now: seq<Row>)
    requires |now| == |rows|
  {
    forall j :: 0 <= j < |rows| ==>
      now[j] == if HasGroup(rows[j]) && rows[j].group.value in done then ResolvedRow(rows, pr, j) else rows[j]
  }

  /** What the grouping loop's result says about the `t`-th group met. */
  lemma GroupAt(rows: seq<Row>, ids: seq<int>, groups: map<int, seq<nat>>, t: nat)
    requires GroupedUpTo(rows, |rows|, ids, groups) && t < |ids|
    ensures ids[t] in groups && ids[t] !in ids[..t]
    ensures groups[ids[t]] == Indices(rows, ids[t]) && groups[ids[t]] != []
  {
    var g := ids[t];
    assert g in ids;
    assert g in groups;
    assert groups[g] == Indices(rows[..|rows|], g);
    assert rows[..|rows|] == rows;
    NotEarlier(ids, t);
  }

  /** In a sequence without repetitions no element occurs before its own position. */
  lemma NotEarlier(ids: seq<int>, t: nat)
    requires Distinct(ids) && t < |ids|
    ensures ids[t] !in ids[..t]
  {
    forall k | 0 <= k < t
      ensures ids[..t][k] != ids[t]
    {
      assert ids[..t][k] == ids[k];
    }
  }

  /** A partly resolved table differs from the original only in Delete cells. */
  lemma ResolvedForKeepsKeys(rows: seq<Row>, pr: seq<string>, done: seq<int>, now: seq<Row>)
    requires |now| == |rows| && ResolvedFor(rows, pr, done, now)
    ensures forall j :: 0 <= j < |rows| ==> now[j] == rows[j].(delete := now[j].delete)
  {
  }

  /** Marking one more group, at the position the sort puts first, resolves it. */
  lemma ResolveGroupStep(rows: seq<Row>, pr: seq<string>, done: seq<int>, g: int, before: seq<Row>, after: seq<Row>, p: nat)
    requires |before| == |rows| == |after| && ResolvedFor(rows, pr, done, before)
    requires g !in done && Indices(rows, g) != [] && p == BestAt(rows, Indices(rows, g), pr)
    requires forall j :: 0 <= j < |after| ==>
      after[j] == if j in Indices(rows, g) then before[j].(delete := if j == Indices(rows, g)[p] then "No" else "Yes") else before[j]
    ensures ResolvedFor(rows, pr, done + [g], after)
  {
    forall j | 0 <= j < |rows|
      ensures after[j] == if HasGroup(rows[j]) && rows[j].group.value in done + [g] then ResolvedRow(rows, pr, j) else rows[j]
    {
      if j in Indices(rows, g) {
        assert before[j] == rows[j];
      }
    }
  }

  /** Changing Delete cells does not move the first row of the sort. */
  lemma {:induction false} SameKeysSameBest(rows: seq<Row>, now: seq<Row>, idx: seq<nat>, pr: seq<string>)
    requires |now| == |rows| && forall j :: 0 <= j < |rows| ==> now[j] == rows[j].(delete := now[j].delete)
    requires idx != [] && forall q :: 0 <= q < |idx| ==> idx[q] < |rows|
    ensures BestAt(now, idx, pr) == BestAt(rows, idx, pr)
    decreases |idx|
  {
    if |idx| > 1 {
      SameKeysSameBest(rows, now, idx[..|idx| - 1], pr);
    }
  }

  // What resolution promises.

  /** Each group keeps exactly one row, marked "No": its keeper; every other
      row of the group is marked "Yes". */
  lemma OneKeeperPerGroup(rows: seq<Row>, pr: seq<string>, g: int)
    requires exists j :: 0 <= j < |rows| && InGroup(rows[j], g)
    ensures Indices(rows, g) != []
    ensures var s, k := Resolved(rows, pr), Keeper(rows, g, pr);
      InGroup(rows[k], g) && s[k].delete == "No" &&
      forall j :: 0 <= j < |rows| && InGroup(rows[j], g) && j != k ==> s[j].delete == "Yes"
  {
    var j0 :| 0 <= j0 < |rows| && InGroup(rows[j0], g);
    ResolvedDelete(rows, pr, j0);
    var k := Keeper(rows, g, pr);
    assert InGroup(rows[k], g);
    ResolvedDelete(rows, pr, k);
    forall j | 0 <= j < |rows| && InGroup(rows[j], g) && j != k
      ensures Resolved(rows, pr)[j].delete == "Yes"
    {
      ResolvedDelete(rows, pr, j);
    }
  }

  /** The Delete cell resolution gives a grouped row. */
  lemma ResolvedDelete(rows: seq<Row>, pr: seq<string>, j: nat)
    requires j < |rows| && HasGroup(rows[j])
    ensures Indices(rows, rows[j].group.value) != []
    ensures Resolved(rows, pr)[j].delete == if j == Keeper(rows, rows[j].group.value, pr) then "No" else "Yes"
  {
    assert j in Indices(rows, rows[j].group.value);
    assert Resolved(rows, pr)[j] == ResolvedRow(rows, pr, j);
  }

  /** The keeper is the row a stable sort by the key puts first: no row of the
      group has a smaller key, and it is the earliest in the table among the
      rows with its key. */
  lemma KeeperIsFirstOfSort(rows: seq<Row>, pr: seq<string>, g: int)
    requires Indices(rows, g) != []
    ensures var k := Keeper(rows, g, pr);
      forall j :: 0 <= j < |rows| && InGroup(rows[j], g) ==>
        !Before(rows[j], rows[k], pr) && (j < k ==> Before(rows[k], rows[j], pr))
  {
    forall j | 0 <= j < |rows| && InGroup(rows[j], g)
      ensures var k := Keeper(rows, g, pr);
        !Before(rows[j], rows[k], pr) && (j < k ==> Before(rows[k], rows[j], pr))
    {
      KeeperBeats(rows, pr, g, j);
    }
  }

  /** The keeper against one row of its group. */
  lemma KeeperBeats(rows: seq<Row>, pr: seq<string>, g: int, j: nat)
    requires Indices(rows, g) != [] && j < |rows| && InGroup(rows[j], g)
    ensures var k := Keeper(rows, g, pr);
      !Before(rows[j], rows[k], pr) && (j < k ==> Before(rows[k], rows[j], pr))
  {
    var idx := Indices(rows, g);
    var p := BestAt(rows, idx, pr);
    assert Keeper(rows, g, pr) == idx[p];
    BestAtIsFirstOfSort(rows, idx, pr);
    assert j in idx;
    var q := PositionOf(idx, j);
    FirstOfSortBeats(rows, idx, pr, p, q);
  }

  /** Where `j` sits in `idx`. */
  lemma PositionOf(idx: seq<nat>, j: nat) returns (q: nat)
    requires j in idx
    ensures q < |idx| && idx[q] == j
  {
    q :| 0 <= q < |idx| && idx[q] == j;
  }

  /** The first of a stable sort over increasing positions against one position. */
  lemma FirstOfSortBeats(rows: seq<Row>, idx: seq<nat>, pr: seq<string>, p: nat, q: nat)
    requires p < |idx| && q < |idx| && forall a :: 0 <= a < |idx| ==> idx[a] < |rows|
    requires forall a, b :: 0 <= a < b < |idx| ==> idx[a] < idx[b]
    requires FirstOfSortAt(rows, idx, pr, p)
    ensures !Before(rows[idx[q]], rows[idx[p]], pr)
    ensures idx[q] < idx[p] ==> Before(rows[idx[p]], rows[idx[q]], pr)
  {
    if idx[q] < idx[p] {
      assert q < p;
    }
  }

  /** Applying the same priority list a second time changes nothing. */
  lemma ResolveIsIdempotent(rows: seq<Row>, pr: seq<string>)
    ensures Resolved(Resolved(rows, pr), pr) == Resolved(rows, pr)
  {
    var s := Resolved(rows, pr);
    forall j | 0 <= j < |rows|
      ensures ResolvedRow(s, pr, j) == s[j]
    {
      ResolvedRowStable(rows, pr, j);
    }
  }

  lemma ResolvedRowStable(rows: seq<Row>, pr: seq<string>, j: nat)
    requires j < |rows|
    ensures ResolvedRow(Resolved(rows, pr), pr, j) == Resolved(rows, pr)[j]
  {
    var s := Resolved(rows, pr);
    if HasGroup(rows[j]) {
      var g := rows[j].group.value;
      SameGroupsSameIndices(rows, s, g);
      assert j in Indices(rows, g);
      SameKeysSameBest(rows, s, Indices(rows, g), pr);
    }
  }

  /** After resolution every group has exactly one row not marked for
      deletion, so the page reports every group as "Only 1 file". */
  lemma ResolvedGroupsHaveOneFile(rows: seq<Row>, pr: seq<string>)
    ensures var s := Resolved(rows, pr);
      forall g :: g in GroupStatuses(s) ==> GroupStatuses(s)[g] == OnlyOneFile
  {
    var s := Resolved(rows, pr);
    forall g | g in GroupStatuses(s)
      ensures GroupStatuses(s)[g] == OnlyOneFile
    {
      ResolvedGroupHasOneFile(rows, pr, g);
    }
  }

  lemma ResolvedGroupHasOneFile(rows: seq<Row>, pr: seq<string>, g: int)
    requires g in GroupStatuses(Resolved(rows, pr))
    ensures GroupStatuses(Resolved(rows, pr))[g] == OnlyOneFile
  {
    var s := Resolved(rows, pr);
    assert exists j :: 0 <= j < |rows| && InGroup(rows[j], g) by {
      GroupStatusesKeys(s);
      var j0 :| 0 <= j0 < |s| && InGroup(s[j0], g);
      assert InGroup(rows[j0], g);
    }
    OneKeeperPerGroup(rows, pr, g);
    SameGroupsSameIndices(rows, s, g);
    OneUnmarkedMember(rows, pr, g);
    StatusOfGroup(s, g);
  }

  lemma OneUnmarkedMember(rows: seq<Row>, pr: seq<string>, g: int)
    requires Indices(rows, g) != []
    requires var s, k := Resolved(rows, pr), Keeper(rows, g, pr);
      InGroup(rows[k], g) && s[k].delete == "No" &&
      forall j :: 0 <= j < |rows| && InGroup(rows[j], g) && j != k ==> s[j].delete == "Yes"
    requires Indices(Resolved(rows, pr), g) == Indices(rows, g)
    ensures var m := Members(Resolved(rows, pr), g);
      (exists r :: r in m && !MarkedForDeletion(r)) && !TwoUnmarked(m)
  {
    var s, k := Resolved(rows, pr), Keeper(rows, g, pr);
    var idx := Indices(rows, g);
    var m := Members(s, g);
    YesMarksNoDoesNot(s[k]);
    assert s[k] in m;
    forall a, b | 0 <= a < b < |m|
      ensures MarkedForDeletion(m[a]) || MarkedForDeletion(m[b])
    {
      var c := if idx[a] != k then a else b;
      OtherMemberMarked(rows, pr, g, c);
    }
  }

  /** A member other than the keeper is marked for deletion after resolution. */
  lemma OtherMemberMarked(rows: seq<Row>, pr: seq<string>, g: int, c: nat)
    requires Indices(rows, g) != [] && c < |Indices(rows, g)|
    requires Indices(rows, g)[c] != Keeper(rows, g, pr)
    requires forall j :: 0 <= j < |rows| && InGroup(rows[j], g) && j != Keeper(rows, g, pr) ==> Resolved(rows, pr)[j].delete == "Yes"
    requires Indices(Resolved(rows, pr), g) == Indices(rows, g)
    ensures MarkedForDeletion(Members(Resolved(rows, pr), g)[c])
  {
    var s, idx := Resolved(rows, pr), Indices(rows, g);
    assert idx[c] in idx;
    assert Members(s, g)[c] == s[idx[c]];
    YesMarksNoDoesNot(s[idx[c]]);
  }
}
