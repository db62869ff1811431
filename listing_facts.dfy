/** What the listing writes: which files get a row, in which order, and with
    which group numbers. */
module ListingFacts {
  import opened Records
  import opened Clustering
  import opened Walk
  import opened Listing

  /** A numbering pass keeps exactly the rows whose path is a member, each
      stamped with the group number (their order is the table's, by the
      definition of `Numbered`). */
  lemma NumberedRows(fd: seq<Row>, m: seq<string>, g: int)
    ensures forall r :: r in Numbered(fd, m, g) ==>
      r.group == Some(g) && r.path in m && exists k :: 0 <= k < |fd| && r == fd[k].(group := Some(g))
    ensures forall k :: 0 <= k < |fd| && fd[k].path in m ==> fd[k].(group := Some(g)) in Numbered(fd, m, g)
  {
    NumberedSound(fd, m, g);
    NumberedComplete(fd, m, g);
  }

  /** Every numbered row is a member's table row stamped with the group number. */
  lemma {:induction false} NumberedSound(fd: seq<Row>, m: seq<string>, g: int)
    ensures forall r :: r in Numbered(fd, m, g) ==>
      r.group == Some(g) && r.path in m && exists k :: 0 <= k < |fd| && r == fd[k].(group := Some(g))
    decreases |fd|
  {
    if fd != [] {
      var n := |fd| - 1;
      var init := fd[..n];
      NumberedSound(init, m, g);
      var piece := if fd[n].path in m then [fd[n].(group := Some(g))] else [];
      assert Numbered(fd, m, g) == Numbered(init, m, g) + piece;
      forall r | r in Numbered(fd, m, g)
        ensures r.group == Some(g) && r.path in m && exists k :: 0 <= k < |fd| && r == fd[k].(group := Some(g))
      {
        if r in piece {
          assert r == fd[n].(group := Some(g));
        } else {
          assert r in Numbered(init, m, g);
          var k :| 0 <= k < |init| && r == init[k].(group := Some(g));
          assert fd[k] == init[k];
        }
      }
    }
  }

  /** Every member's table row appears numbered. */
  lemma {:induction false} NumberedComplete(fd: seq<Row>, m: seq<string>, g: int)
    ensures forall k :: 0 <= k < |fd| && fd[k].path in m ==> fd[k].(group := Some(g)) in Numbered(fd, m, g)
    decreases |fd|
  {
    if fd != [] {
      var n := |fd| - 1;
      var init := fd[..n];
      NumberedComplete(init, m, g);
      var piece := if fd[n].path in m then [fd[n].(group := Some(g))] else [];
      assert Numbered(fd, m, g) == Numbered(init, m, g) + piece;
      forall k | 0 <= k < |fd| && fd[k].path in m
        ensures fd[k].(group := Some(g)) in Numbered(fd, m, g)
      {
        if k < n {
          assert init[k] == fd[k];
          assert fd[k].(group := Some(g)) in Numbered(init, m, g);
        } else {
          assert fd[k].(group := Some(g)) in piece;
        }
      }
    }
  }

  /** The single-file pass keeps, in table order, the rows with that path, unchanged. */
  lemma {:induction false} WithPathRows(fd: seq<Row>, p: string)
    ensures forall r :: r in WithPath(fd, p) ==> r in fd && r.path == p
    ensures forall k :: 0 <= k < |fd| && fd[k].path == p ==> fd[k] in WithPath(fd, p)
    decreases |fd|
  {
    if fd != [] {
      var n := |fd| - 1;
      var init := fd[..n];
      WithPathRows(init, p);
      var piece := if fd[n].path == p then [fd[n]] else [];
      assert WithPath(fd, p) == WithPath(init, p) + piece;
      forall k | 0 <= k < n && fd[k].path == p
        ensures fd[k] in WithPath(fd, p)
      {
        assert init[k] == fd[k];
      }
    }
  }

  /** A numbering pass writes no path more often than the table holds it. */
  lemma {:induction false} NumberedPaths(fd: seq<Row>, m: seq<string>, g: int)
    ensures multiset(RowPaths(Numbered(fd, m, g))) <= multiset(RowPaths(fd))
    ensures forall p :: p in RowPaths(Numbered(fd, m, g)) <==> p in m && p in RowPaths(fd)
    decreases |fd|
  {
    if fd != [] {
      var n := |fd| - 1;
      var init := fd[..n];
      NumberedPaths(init, m, g);
      var piece := if fd[n].path in m then [fd[n].(group := Some(g))] else [];
      assert Numbered(fd, m, g) == Numbered(init, m, g) + piece;
      RowPathsConcat(Numbered(init, m, g), piece);
      assert RowPaths(fd) == RowPaths(init) + [fd[n].path];
    }
  }

  lemma {:induction false} WithPathPaths(fd: seq<Row>, p: string)
    ensures multiset(RowPaths(WithPath(fd, p))) <= multiset(RowPaths(fd))
    ensures forall q :: q in RowPaths(WithPath(fd, p)) <==> q == p && p in RowPaths(fd)
    decreases |fd|
  {
    if fd != [] {
      var n := |fd| - 1;
      var init := fd[..n];
      WithPathPaths(init, p);
      var piece := if fd[n].path == p then [fd[n]] else [];
      assert RowPaths(WithPath(fd, p)) == RowPaths(WithPath(init, p)) + RowPaths(piece) by {
        assert WithPath(fd, p) == WithPath(init, p) + piece;
        RowPathsConcat(WithPath(init, p), piece);
      }
      assert RowPaths(fd) == RowPaths(init) + [fd[n].path];
      assert multiset(RowPaths(piece)) <= multiset([fd[n].path]);
      SubMultisetConcat(RowPaths(WithPath(init, p)), RowPaths(piece), RowPaths(init), [fd[n].path]);
    }
  }

  /** The grouped rows of a non-empty list of representatives, last round apart. */
  lemma GroupedRowsLast<F>(reps: seq<Rep<F>>, fd: seq<Row>)
    requires reps != []
    ensures var n := |reps| - 1;
      GroupedRows(reps, fd) == GroupedRows(reps[..n], fd)
        + (if |reps[n].members| > 1 then Numbered(fd, reps[n].members, MultiCount(reps[..n]) + 1) else [])
  {
  }

  /** The numbering loop's last round when it numbers a group. */
  lemma GroupStep<F>(reps: seq<Rep<F>>, fd: seq<Row>, n: nat)
    requires n == |reps| - 1 && |reps[n].members| > 1
    requires forall i :: 0 <= i < |reps| ==> |reps[i].members| > 0
    ensures GroupedRows(reps, fd) == GroupedRows(reps[..n], fd) + Numbered(fd, reps[n].members, MultiCount(reps[..n]) + 1)
    ensures UniqueRows(reps, fd) == UniqueRows(reps[..n], fd)
  {
  }

  /** The numbering loop's last round when it copies a unique file. */
  lemma UniqueStep<F>(reps: seq<Rep<F>>, fd: seq<Row>, n: nat)
    requires n == |reps| - 1 && |reps[n].members| == 1
    requires forall i :: 0 <= i < |reps| ==> |reps[i].members| > 0
    ensures GroupedRows(reps, fd) == GroupedRows(reps[..n], fd)
    ensures UniqueRows(reps, fd) == UniqueRows(reps[..n], fd) + WithPath(fd, reps[n].members[0])
  {
  }

  /** A block cut from a table without repeated paths, all of whose paths are
      members, holds each member at most once. */
  lemma BlockWithinMembers(fd: seq<Row>, block: seq<Row>, m: seq<string>)
    requires Distinct(RowPaths(fd))
    requires multiset(RowPaths(block)) <= multiset(RowPaths(fd))
    requires forall p :: p in RowPaths(block) ==> p in m
    ensures multiset(RowPaths(block)) <= multiset(m)
  {
    DistinctSubMultiset(RowPaths(fd), RowPaths(block));
    DistinctWithin(RowPaths(block), m);
  }

  lemma SumWithin<T>(g: multiset<T>, u: multiset<T>, block: multiset<T>, before: multiset<T>, m: multiset<T>)
    requires g + u <= before && block <= m
    ensures (g + block) + u <= before + m && g + (u + block) <= before + m
  {
    forall x
      ensures ((g + block) + u)[x] <= (before + m)[x]
    {
      assert (g + u)[x] <= before[x];
    }
  }

  /** The rows written for the dictionary hold no path more often than its
      member lists do. */
  lemma {:induction false} WrittenWithinMembers<F>(reps: seq<Rep<F>>, fd: seq<Row>)
    requires forall i :: 0 <= i < |reps| ==> |reps[i].members| > 0
    requires Distinct(RowPaths(fd))
    ensures multiset(RowPaths(GroupedRows(reps, fd))) + multiset(RowPaths(UniqueRows(reps, fd)))
         <= multiset(AllMembers(reps))
    decreases |reps|
  {
    if reps != [] {
      var n := |reps| - 1;
      WrittenWithinMembers(reps[..n], fd);
      if |reps[n].members| > 1 {
        GroupWithinMembers(reps, fd, n);
      } else {
        UniqueWithinMembers(reps, fd, n);
      }
    }
  }

  lemma GroupWithinMembers<F>(reps: seq<Rep<F>>, fd: seq<Row>, n: nat)
    requires n == |reps| - 1 && |reps[n].members| > 1
    requires forall i :: 0 <= i < |reps| ==> |reps[i].members| > 0
    requires Distinct(RowPaths(fd))
    requires multiset(RowPaths(GroupedRows(reps[..n], fd))) + multiset(RowPaths(UniqueRows(reps[..n], fd)))
          <= multiset(AllMembers(reps[..n]))
    ensures multiset(RowPaths(GroupedRows(reps, fd))) + multiset(RowPaths(UniqueRows(reps, fd)))
         <= multiset(AllMembers(reps))
  {
    var m := reps[n].members;
    var g, u := GroupedRows(reps[..n], fd), UniqueRows(reps[..n], fd);
    assert multiset(AllMembers(reps)) == multiset(AllMembers(reps[..n])) + multiset(m);
    GroupStep(reps, fd, n);
    var block := Numbered(fd, m, MultiCount(reps[..n]) + 1);
    assert multiset(RowPaths(block)) <= multiset(m) by {
      NumberedPaths(fd, m, MultiCount(reps[..n]) + 1);
      BlockWithinMembers(fd, block, m);
    }
    RowPathsConcat(g, block);
    assert multiset(RowPaths(GroupedRows(reps, fd))) == multiset(RowPaths(g)) + multiset(RowPaths(block));
    SumWithin(multiset(RowPaths(g)), multiset(RowPaths(u)), multiset(RowPaths(block)), multiset(AllMembers(reps[..n])), multiset(m));
  }

  lemma UniqueWithinMembers<F>(reps: seq<Rep<F>>, fd: seq<Row>, n: nat)
    requires n == |reps| - 1 && |reps[n].members| == 1
    requires forall i :: 0 <= i < |reps| ==> |reps[i].members| > 0
    requires Distinct(RowPaths(fd))
    requires multiset(RowPaths(GroupedRows(reps[..n], fd))) + multiset(RowPaths(UniqueRows(reps[..n], fd)))
          <= multiset(AllMembers(reps[..n]))
    ensures multiset(RowPaths(GroupedRows(reps, fd))) + multiset(RowPaths(UniqueRows(reps, fd)))
         <= multiset(AllMembers(reps))
  {
    var m := reps[n].members;
    var g, u := GroupedRows(reps[..n], fd), UniqueRows(reps[..n], fd);
    assert multiset(AllMembers(reps)) == multiset(AllMembers(reps[..n])) + multiset(m);
    UniqueStep(reps, fd, n);
    var block := WithPath(fd, m[0]);
    assert multiset(RowPaths(block)) <= multiset(m) by {
      WithPathPaths(fd, m[0]);
      assert m == [m[0]];
      BlockWithinMembers(fd, block, m);
    }
    RowPathsConcat(u, block);
    assert multiset(RowPaths(UniqueRows(reps, fd))) == multiset(RowPaths(u)) + multiset(RowPaths(block));
    SumWithin(multiset(RowPaths(g)), multiset(RowPaths(u)), multiset(RowPaths(block)), multiset(AllMembers(reps[..n])), multiset(m));
  }

  /** Every member whose path is in the table gets a written row. */
  lemma {:induction false} MembersWritten<F>(reps: seq<Rep<F>>, fd: seq<Row>)
    requires forall i :: 0 <= i < |reps| ==> |reps[i].members| > 0
    ensures forall p :: p in AllMembers(reps) && p in RowPaths(fd) ==>
      p in RowPaths(GroupedRows(reps, fd)) || p in RowPaths(UniqueRows(reps, fd))
    decreases |reps|
  {
    if reps != [] {
      var n := |reps| - 1;
      var m := reps[n].members;
      MembersWritten(reps[..n], fd);
      var g, u := GroupedRows(reps[..n], fd), UniqueRows(reps[..n], fd);
      assert AllMembers(reps) == AllMembers(reps[..n]) + m;
      if |m| > 1 {
        GroupStep(reps, fd, n);
        var block := Numbered(fd, m, MultiCount(reps[..n]) + 1);
        NumberedPaths(fd, m, MultiCount(reps[..n]) + 1);
        RowPathsConcat(g, block);
      } else {
        UniqueStep(reps, fd, n);
        var block := WithPath(fd, m[0]);
        WithPathPaths(fd, m[0]);
        assert m == [m[0]];
        RowPathsConcat(u, block);
      }
    }
  }

  lemma GroupNumberPrefix<F>(reps: seq<Rep<F>>, n: nat, i: nat)
    requires i < n <= |reps|
    ensures GroupNumber(reps[..n], i) == GroupNumber(reps, i)
  {
    assert reps[..n][..i] == reps[..i];
  }

  /** Each grouped row is a table row whose path is a member of a
      representative with several members, stamped with that representative's
      group number; and each such table row is among the grouped rows. */
  lemma {:induction false} GroupedRowsNumbered<F>(reps: seq<Rep<F>>, fd: seq<Row>)
    ensures forall r :: r in GroupedRows(reps, fd) ==>
      exists i, k :: 0 <= i < |reps| && 0 <= k < |fd| && |reps[i].members| > 1 &&
        fd[k].path in reps[i].members && r == fd[k].(group := Some(GroupNumber(reps, i)))
    ensures forall i, k :: 0 <= i < |reps| && 0 <= k < |fd| && |reps[i].members| > 1 && fd[k].path in reps[i].members ==>
      fd[k].(group := Some(GroupNumber(reps, i))) in GroupedRows(reps, fd)
    decreases |reps|
  {
    if reps != [] {
      var n := |reps| - 1;
      GroupedRowsNumbered(reps[..n], fd);
      GroupedRowsNumberedStep(reps, fd, n);
    }
  }

  lemma GroupedRowsNumberedStep<F>(reps: seq<Rep<F>>, fd: seq<Row>, n: nat)
    requires n == |reps| - 1
    requires forall r :: r in GroupedRows(reps[..n], fd) ==>
      exists i, k :: 0 <= i < |reps[..n]| && 0 <= k < |fd| && |reps[..n][i].members| > 1 &&
        fd[k].path in reps[..n][i].members && r == fd[k].(group := Some(GroupNumber(reps[..n], i)))
    requires forall i, k :: 0 <= i < |reps[..n]| && 0 <= k < |fd| && |reps[..n][i].members| > 1 && fd[k].path in reps[..n][i].members ==>
      fd[k].(group := Some(GroupNumber(reps[..n], i))) in GroupedRows(reps[..n], fd)
    ensures forall r :: r in GroupedRows(reps, fd) ==>
      exists i, k :: 0 <= i < |reps| && 0 <= k < |fd| && |reps[i].members| > 1 &&
        fd[k].path in reps[i].members && r == fd[k].(group := Some(GroupNumber(reps, i)))
    ensures forall i, k :: 0 <= i < |reps| && 0 <= k < |fd| && |reps[i].members| > 1 && fd[k].path in reps[i].members ==>
      fd[k].(group := Some(GroupNumber(reps, i))) in GroupedRows(reps, fd)
  {
    var m := reps[n].members;
    var g := GroupedRows(reps[..n], fd);
    var block := if |m| > 1 then Numbered(fd, m, GroupNumber(reps, n)) else [];
    assert GroupedRows(reps, fd) == g + block;
    if |m| > 1 {
      NumberedRows(fd, m, GroupNumber(reps, n));
    }
    forall r | r in GroupedRows(reps, fd)
      ensures exists i, k :: (0 <= i < |reps| && 0 <= k < |fd| && |reps[i].members| > 1 &&
                              fd[k].path in reps[i].members && r == fd[k].(group := Some(GroupNumber(reps, i))))
    {
      if r in g {
        var i, k :| 0 <= i < |reps[..n]| && 0 <= k < |fd| && |reps[..n][i].members| > 1 &&
          fd[k].path in reps[..n][i].members && r == fd[k].(group := Some(GroupNumber(reps[..n], i)));
        GroupNumberPrefix(reps, n, i);
        assert reps[..n][i] == reps[i];
      } else {
        assert r in block;
        var k :| 0 <= k < |fd| && r == fd[k].(group := Some(GroupNumber(reps, n)));
        assert fd[k].path == r.path;
      }
    }
    forall i, k | 0 <= i < |reps| && 0 <= k < |fd| && |reps[i].members| > 1 && fd[k].path in reps[i].members
      ensures fd[k].(group := Some(GroupNumber(reps, i))) in GroupedRows(reps, fd)
    {
      if i < n {
        GroupNumberPrefix(reps, n, i);
        assert reps[..n][i] == reps[i];
      }
    }
  }

  /** Every row carries a group number between 1 and `top`. */
  predicate GroupsWithin(rows: seq<Row>, top: int) {
    forall a :: 0 <= a < |rows| ==> rows[a].group.Some? && 1 <= rows[a].group.value <= top
  }

  /** Group numbers never decrease down the rows. */
  predicate GroupsAscending(rows: seq<Row>) {
    forall a, b :: 0 <= a < b < |rows| && rows[a].group.Some? && rows[b].group.Some? ==>
      rows[a].group.value <= rows[b].group.value
  }

  lemma AscendingConcat(g: seq<Row>, block: seq<Row>, c: nat)
    requires GroupsWithin(g, c) && GroupsAscending(g)
    requires forall r :: r in block ==> r.group == Some(c + 1)
    ensures GroupsWithin(g + block, c + 1) && GroupsAscending(g + block)
  {
    var all := g + block;
    forall a | 0 <= a < |all|
      ensures all[a].group.Some? && 1 <= all[a].group.value <= c + 1
    {
      if a >= |g| {
        assert all[a] == block[a - |g|];
      }
    }
    forall a, b | 0 <= a < b < |all| && all[a].group.Some? && all[b].group.Some?
      ensures all[a].group.value <= all[b].group.value
    {
      if b >= |g| {
        assert all[b] == block[b - |g|];
        if a >= |g| {
          assert all[a] == block[a - |g|];
        }
      }
    }
  }

  /** Group numbers on the grouped rows run from 1 to the number of groups and
      never decrease down the sheet. */
  lemma {:induction false} GroupedRowsOrdered<F>(reps: seq<Rep<F>>, fd: seq<Row>)
    ensures GroupsWithin(GroupedRows(reps, fd), MultiCount(reps))
    ensures GroupsAscending(GroupedRows(reps, fd))
    decreases |reps|
  {
    if reps != [] {
      var n := |reps| - 1;
      var m := reps[n].members;
      GroupedRowsOrdered(reps[..n], fd);
      var g := GroupedRows(reps[..n], fd);
      var c := MultiCount(reps[..n]);
      if |m| > 1 {
        assert GroupedRows(reps, fd) == g + Numbered(fd, m, c + 1);
        NumberedRows(fd, m, c + 1);
        AscendingConcat(g, Numbered(fd, m, c + 1), c);
      } else {
        assert GroupedRows(reps, fd) == g;
      }
    }
  }

  /** `r` is the table row `t` with (possibly) another group number. */
  predicate Renumbered(r: Row, t: Row) {
    r == t.(group := r.group)
  }

  /** Two rows of `rows` with the same group number come from table rows in
      the same order: the earlier one from an earlier row of `fd`. */
  ghost predicate SameGroupInTableOrder(rows: seq<Row>, fd: seq<Row>) {
    forall a, b :: 0 <= a < b < |rows| && rows[a].group.Some? && rows[a].group == rows[b].group ==>
      exists k1, k2 :: 0 <= k1 < k2 < |fd| && Renumbered(rows[a], fd[k1]) && Renumbered(rows[b], fd[k2])
  }

  /** A numbering pass keeps the table's order. */
  lemma {:induction false} NumberedFollowsTable(fd: seq<Row>, m: seq<string>, g: int)
    ensures SameGroupInTableOrder(Numbered(fd, m, g), fd)
    decreases |fd|
  {
    if fd != [] {
      var n := |fd| - 1;
      NumberedFollowsTable(fd[..n], m, g);
      NumberedSound(fd[..n], m, g);
      FollowsTableSnoc(Numbered(fd[..n], m, g), fd, if fd[n].path in m then [fd[n].(group := Some(g))] else []);
    }
  }

  /** Rows drawn in order from all but the last table row, followed by at most
      a renumbered copy of the last row, are still in table order. */
  lemma FollowsTableSnoc(before: seq<Row>, fd: seq<Row>, last: seq<Row>)
    requires fd != []
    requires SameGroupInTableOrder(before, fd[..|fd| - 1])
    requires forall r :: r in before ==> exists k :: 0 <= k < |fd| - 1 && r == fd[k].(group := r.group)
    requires last == [] || (|last| == 1 && Renumbered(last[0], fd[|fd| - 1]))
    ensures SameGroupInTableOrder(before + last, fd)
  {
    var n := |fd| - 1;
    var rows := before + last;
    forall a, b | 0 <= a < b < |rows| && rows[a].group.Some? && rows[a].group == rows[b].group
      ensures exists k1, k2 :: 0 <= k1 < k2 < |fd| && Renumbered(rows[a], fd[k1]) && Renumbered(rows[b], fd[k2])
    {
      assert rows[a] == before[a];
      if b < |before| {
        assert rows[b] == before[b];
        var k1, k2 :| 0 <= k1 < k2 < n && Renumbered(before[a], fd[..n][k1]) && Renumbered(before[b], fd[..n][k2]);
        assert fd[..n][k1] == fd[k1] && fd[..n][k2] == fd[k2];
      } else {
        assert before[a] in before;
        var k1 :| 0 <= k1 < n && before[a] == fd[k1].(group := before[a].group);
        assert Renumbered(rows[a], fd[k1]) && Renumbered(rows[b], fd[n]);
      }
    }
  }

  /** Appending a block numbered `c + 1` to rows numbered within 1 .. c keeps
      each group's rows in table order. */
  lemma FollowsTableConcat(g: seq<Row>, block: seq<Row>, fd: seq<Row>, c: nat)
    requires SameGroupInTableOrder(g, fd) && SameGroupInTableOrder(block, fd)
    requires GroupsWithin(g, c)
    requires forall r :: r in block ==> r.group == Some(c + 1)
    ensures SameGroupInTableOrder(g + block, fd)
  {
    var all := g + block;
    forall a, b | 0 <= a < b < |all| && all[a].group.Some? && all[a].group == all[b].group
      ensures exists k1, k2 :: 0 <= k1 < k2 < |fd| && Renumbered(all[a], fd[k1]) && Renumbered(all[b], fd[k2])
    {
      if b < |g| {
        assert all[a] == g[a] && all[b] == g[b];
      } else if a < |g| {
        assert false;
      } else {
        assert all[a] == block[a - |g|] && all[b] == block[b - |g|];
      }
    }
  }

  /** Within one group, the grouped rows follow the walk order of the table,
      not the order in which the files joined the group. */
  lemma {:induction false} GroupedRowsFollowTable<F>(reps: seq<Rep<F>>, fd: seq<Row>)
    ensures SameGroupInTableOrder(GroupedRows(reps, fd), fd)
    decreases |reps|
  {
    if reps != [] {
      GroupedRowsFollowTable(reps[..|reps| - 1], fd);
      GroupedFollowsTableStep(reps, fd);
    }
  }

  /** One more representative keeps the grouped rows in table order. */
  lemma GroupedFollowsTableStep<F>(reps: seq<Rep<F>>, fd: seq<Row>)
    requires reps != []
    requires SameGroupInTableOrder(GroupedRows(reps[..|reps| - 1], fd), fd)
    ensures SameGroupInTableOrder(GroupedRows(reps, fd), fd)
  {
    var n := |reps| - 1;
    var m := reps[n].members;
    var c := MultiCount(reps[..n]);
    GroupedRowsLast(reps, fd);
    if |m| > 1 {
      GroupedRowsWithin(reps[..n], fd);
      NumberedFollowsTable(fd, m, c + 1);
      NumberedGroup(fd, m, c + 1);
      FollowsTableConcat(GroupedRows(reps[..n], fd), Numbered(fd, m, c + 1), fd, c);
      assert GroupedRows(reps, fd) == GroupedRows(reps[..n], fd) + Numbered(fd, m, c + 1);
    } else {
      assert GroupedRows(reps, fd) == GroupedRows(reps[..n], fd);
    }
  }

  lemma GroupedRowsWithin<F>(reps: seq<Rep<F>>, fd: seq<Row>)
    ensures GroupsWithin(GroupedRows(reps, fd), MultiCount(reps))
  {
    GroupedRowsOrdered(reps, fd);
  }

  lemma NumberedGroup(fd: seq<Row>, m: seq<string>, g: int)
    ensures forall r :: r in Numbered(fd, m, g) ==> r.group == Some(g)
  {
    NumberedSound(fd, m, g);
  }

  /** Each unique row is an unchanged table row whose path is the only member
      of some representative; and each such table row is among the unique rows. */
  lemma {:induction false} UniqueRowsFromTable<F>(reps: seq<Rep<F>>, fd: seq<Row>)
    requires forall i :: 0 <= i < |reps| ==> |reps[i].members| > 0
    ensures forall r :: r in UniqueRows(reps, fd) ==>
      r in fd && exists i :: 0 <= i < |reps| && reps[i].members == [r.path]
    ensures forall i, k :: 0 <= i < |reps| && 0 <= k < |fd| && reps[i].members == [fd[k].path] ==>
      fd[k] in UniqueRows(reps, fd)
    decreases |reps|
  {
    if reps != [] {
      var n := |reps| - 1;
      UniqueRowsFromTable(reps[..n], fd);
      UniqueRowsFromTableStep(reps, fd, n);
    }
  }

  lemma UniqueRowsFromTableStep<F>(reps: seq<Rep<F>>, fd: seq<Row>, n: nat)
    requires n == |reps| - 1
    requires forall i :: 0 <= i < |reps| ==> |reps[i].members| > 0
    requires forall r :: r in UniqueRows(reps[..n], fd) ==>
      r in fd && exists i :: 0 <= i < |reps[..n]| && reps[..n][i].members == [r.path]
    requires forall i, k :: 0 <= i < |reps[..n]| && 0 <= k < |fd| && reps[..n][i].members == [fd[k].path] ==>
      fd[k] in UniqueRows(reps[..n], fd)
    ensures forall r :: r in UniqueRows(reps, fd) ==>
      r in fd && exists i :: 0 <= i < |reps| && reps[i].members == [r.path]
    ensures forall i, k :: 0 <= i < |reps| && 0 <= k < |fd| && reps[i].members == [fd[k].path] ==>
      fd[k] in UniqueRows(reps, fd)
  {
    var m := reps[n].members;
    var u := UniqueRows(reps[..n], fd);
    var block := if |m| > 1 then [] else WithPath(fd, m[0]);
    assert UniqueRows(reps, fd) == u + block;
    if |m| == 1 {
      WithPathRows(fd, m[0]);
      assert m == [m[0]];
    }
    forall r | r in UniqueRows(reps, fd)
      ensures r in fd && exists i :: 0 <= i < |reps| && reps[i].members == [r.path]
    {
      if r in u {
        var i :| 0 <= i < |reps[..n]| && reps[..n][i].members == [r.path];
        assert reps[i] == reps[..n][i];
      } else {
        assert r in block;
        assert reps[n].members == [r.path];
      }
    }
    forall i, k | 0 <= i < |reps| && 0 <= k < |fd| && reps[i].members == [fd[k].path]
      ensures fd[k] in UniqueRows(reps, fd)
    {
      if i < n {
        assert reps[..n][i] == reps[i];
      }
    }
  }

  /** The paths the sheet writes, top to bottom, skipping the separator. */
  function WrittenPaths(sheet: seq<SheetRow>): seq<string>
    decreases |sheet|
  {
    if sheet == [] then []
    else
      var n := |sheet| - 1;
      WrittenPaths(sheet[..n]) + (if sheet[n].Data? then [sheet[n].row.path] else [])
  }

  lemma {:induction false} WrittenPathsConcat(a: seq<SheetRow>, b: seq<SheetRow>)
    ensures WrittenPaths(a + b) == WrittenPaths(a) + WrittenPaths(b)
    decreases |b|
  {
    if b != [] {
      var n := |b| - 1;
      assert (a + b)[..|a + b| - 1] == a + b[..n];
      WrittenPathsConcat(a, b[..n]);
    } else {
      assert a + b == a;
    }
  }

  lemma {:induction false} WrittenPathsOfRows(rows: seq<Row>)
    ensures WrittenPaths(AsData(rows)) == RowPaths(rows)
    decreases |rows|
  {
    if rows != [] {
      var n := |rows| - 1;
      assert AsData(rows)[..n] == AsData(rows[..n]);
      WrittenPathsOfRows(rows[..n]);
    }
  }

  /** The sheet writes the grouped rows' paths, then the unique rows' paths. */
  lemma LayoutPaths(grouped: seq<Row>, unique: seq<Row>)
    ensures WrittenPaths(Layout(grouped, unique)) == RowPaths(grouped) + RowPaths(unique)
  {
    var sep: seq<SheetRow> := if grouped != [] && unique != [] then [Separator] else [];
    var head := AsData(grouped) + sep;
    assert Layout(grouped, unique) == head + AsData(unique);
    assert WrittenPaths(sep) == [] by {
      if sep != [] {
        assert sep[..0] == [];
      }
    }
    assert WrittenPaths(head) == RowPaths(grouped) by {
      WrittenPathsConcat(AsData(grouped), sep);
      WrittenPathsOfRows(grouped);
    }
    assert WrittenPaths(head + AsData(unique)) == RowPaths(grouped) + RowPaths(unique) by {
      WrittenPathsConcat(head, AsData(unique));
      WrittenPathsOfRows(unique);
    }
  }

  lemma FileDataPaths<F>(files: seq<WalkedFile<F>>)
    ensures RowPaths(FileData(files)) == FilePaths(files)
  {
  }

  /** The rows the sheet writes hold no path more often than the member lists. */
  lemma SheetWithinMembers<F>(files: seq<WalkedFile<F>>, threshold: int, dist: (F, F) -> nat)
    requires Distinct(FilePaths(files))
    ensures multiset(WrittenPaths(Sheet(files, threshold, dist)))
         <= multiset(AllMembers(ClusterAll(HashedFiles(files), threshold, dist)))
  {
    var reps := ClusterAll(HashedFiles(files), threshold, dist);
    var fd := FileData(files);
    ClusterWellFormed(HashedFiles(files), threshold, dist);
    var g, u := GroupedRows(reps, fd), UniqueRows(reps, fd);
    assert Sheet(files, threshold, dist) == Layout(g, u);
    LayoutPaths(g, u);
    assert multiset(RowPaths(g) + RowPaths(u)) == multiset(RowPaths(g)) + multiset(RowPaths(u));
    FileDataPaths(files);
    WrittenWithinMembers(reps, fd);
  }

  /** The sheet writes each path at most once, writes only paths of
      fingerprinted files, and never writes a file without a fingerprint (a
      file that is not an image or video, or whose metadata or hash could not
      be read). Walked paths are distinct, as a directory walk yields them. */
  lemma SheetWritesOnlyFingerprintedFiles<F>(files: seq<WalkedFile<F>>, threshold: int, dist: (F, F) -> nat)
    requires Distinct(FilePaths(files))
    ensures multiset(WrittenPaths(Sheet(files, threshold, dist))) <= multiset(HashedPaths(HashedFiles(files)))
    ensures Distinct(WrittenPaths(Sheet(files, threshold, dist)))
    ensures forall f :: f in files && Fingerprint(f).None? ==> f.path !in WrittenPaths(Sheet(files, threshold, dist))
  {
    var h := HashedPaths(HashedFiles(files));
    var w := WrittenPaths(Sheet(files, threshold, dist));
    SheetWithinMembers(files, threshold, dist);
    ClusterNeverInvents(HashedFiles(files), threshold, dist);
    assert Distinct(h) by {
      HashedPathsAreWalkedPaths(files);
    }
    WithinDistinct(w, h);
    NotFingerprintedNotListed(files, w);
  }

  lemma NotFingerprintedNotListed<F>(files: seq<WalkedFile<F>>, w: seq<string>)
    requires Distinct(FilePaths(files))
    requires forall q :: q in w ==> q in HashedPaths(HashedFiles(files))
    ensures forall f :: f in files && Fingerprint(f).None? ==> f.path !in w
  {
    HashedPathsAreWalkedPaths(files);
  }

  /** With a positive threshold and a distance that is zero between equal
      fingerprints, the sheet writes every fingerprinted file exactly once and
      nothing else. */
  lemma SheetWritesEveryFingerprintedFileOnce<F>(files: seq<WalkedFile<F>>, threshold: int, dist: (F, F) -> nat)
    requires Distinct(FilePaths(files))
    requires threshold > 0 && forall x :: dist(x, x) == 0
    ensures multiset(WrittenPaths(Sheet(files, threshold, dist))) == multiset(HashedPaths(HashedFiles(files)))
  {
    var hashed := HashedFiles(files);
    var reps := ClusterAll(hashed, threshold, dist);
    var fd := FileData(files);
    ClusterWellFormed(hashed, threshold, dist);
    var g, u := GroupedRows(reps, fd), UniqueRows(reps, fd);
    var w := WrittenPaths(Sheet(files, threshold, dist));
    assert Sheet(files, threshold, dist) == Layout(g, u);
    LayoutPaths(g, u);
    SheetWritesOnlyFingerprintedFiles(files, threshold, dist);
    ClusterKeepsEveryFile(hashed, threshold, dist);
    HashedPathsAreWalkedPaths(files);
    FileDataPaths(files);
    MembersWritten(reps, fd);
    forall p | p in HashedPaths(hashed)
      ensures p in w
    {
      assert p in multiset(AllMembers(reps));
    }
    DistinctSqueeze(w, HashedPaths(hashed));
  }

  /** A data row of the layout is either a grouped row at the same position
      or a unique row counted from the end. */
  lemma LayoutIndex(g: seq<Row>, u: seq<Row>, j: nat)
    requires j < |Layout(g, u)| && Layout(g, u)[j].Data?
    ensures (j < |g| && Layout(g, u)[j].row == g[j]) ||
            (|Layout(g, u)| - |u| <= j && Layout(g, u)[j].row == u[j - (|Layout(g, u)| - |u|)])
  {
  }

  /** A numbered data row of the layout is a grouped row, when unique rows carry no number. */
  lemma LayoutNumberedRow(g: seq<Row>, u: seq<Row>, j: nat)
    requires forall r :: r in u ==> r.group == None
    requires j < |Layout(g, u)| && Layout(g, u)[j].Data? && Layout(g, u)[j].row.group.Some?
    ensures j < |g| && Layout(g, u)[j] == Data(g[j])
  {
    LayoutIndex(g, u, j);
  }

  /** In the layout, numbered rows come first with non-decreasing numbers in
      1 .. top, and every data row has "No" in its Delete cell. */
  lemma LayoutGroups(g: seq<Row>, u: seq<Row>, top: nat)
    requires GroupsWithin(g, top) && GroupsAscending(g)
    requires forall r :: r in u ==> r.group == None
    requires forall r :: r in g || r in u ==> r.delete == "No"
    ensures forall i :: 0 <= i < |Layout(g, u)| && Layout(g, u)[i].Data? ==>
      Layout(g, u)[i].row.delete == "No" &&
      (Layout(g, u)[i].row.group.Some? ==> 1 <= Layout(g, u)[i].row.group.value <= top)
    ensures forall i, j ::
      (0 <= i < j < |Layout(g, u)| && Layout(g, u)[i].Data? && Layout(g, u)[j].Data? && Layout(g, u)[j].row.group.Some?) ==>
        Layout(g, u)[i].row.group.Some? && Layout(g, u)[i].row.group.value <= Layout(g, u)[j].row.group.value
  {
    var s := Layout(g, u);
    forall i | 0 <= i < |s| && s[i].Data?
      ensures s[i].row.delete == "No" && (s[i].row.group.Some? ==> 1 <= s[i].row.group.value <= top)
    {
      LayoutIndex(g, u, i);
      if i < |g| && s[i].row == g[i] {
        assert g[i] in g;
      } else {
        assert s[i].row in u;
      }
    }
    forall i, j | 0 <= i < j < |s| && s[i].Data? && s[j].Data? && s[j].row.group.Some?
      ensures s[i].row.group.Some? && s[i].row.group.value <= s[j].row.group.value
    {
      LayoutNumberedRow(g, u, j);
      assert s[i] == Data(g[i]);
    }
  }

  lemma TableRows<F>(files: seq<WalkedFile<F>>)
    ensures forall r :: r in FileData(files) ==> r.group == None && r.delete == "No"
  {
    var fd := FileData(files);
    forall r | r in fd
      ensures r.group == None && r.delete == "No"
    {
      var k :| 0 <= k < |fd| && fd[k] == r;
    }
  }

  /** The two parts the numbering loop builds from a table of unnumbered rows
      marked "No": the numbered part carries group numbers ascending from 1 to
      the number of groups, the unique part carries none, and no row changes
      its Delete cell. */
  lemma PartsColumns<F>(reps: seq<Rep<F>>, fd: seq<Row>)
    requires forall i :: 0 <= i < |reps| ==> |reps[i].members| > 0
    requires forall r :: r in fd ==> r.group == None && r.delete == "No"
    ensures GroupsWithin(GroupedRows(reps, fd), MultiCount(reps)) && GroupsAscending(GroupedRows(reps, fd))
    ensures forall r :: r in GroupedRows(reps, fd) ==> r.delete == "No"
    ensures forall r :: r in UniqueRows(reps, fd) ==> r.group == None && r.delete == "No"
  {
    GroupedRowsOrdered(reps, fd);
    UniqueRowsFromTable(reps, fd);
    var g := GroupedRows(reps, fd);
    GroupedRowsNumbered(reps, fd);
    forall r | r in g
      ensures r.delete == "No"
    {
      var i, k :| 0 <= i < |reps| && 0 <= k < |fd| && |reps[i].members| > 1 &&
        fd[k].path in reps[i].members && r == fd[k].(group := Some(GroupNumber(reps, i)));
      assert fd[k] in fd;
    }
  }

  /** When every member is a path of the table, each group number from 1 to
      the number of groups is carried by some numbered row. */
  lemma GroupedRowsDense<F>(reps: seq<Rep<F>>, fd: seq<Row>)
    requires forall i, p :: 0 <= i < |reps| && p in reps[i].members ==> p in RowPaths(fd)
    ensures forall n :: n in OneTo(MultiCount(reps)) ==> exists r :: r in GroupedRows(reps, fd) && r.group == Some(n)
  {
    forall n | n in OneTo(MultiCount(reps))
      ensures exists r :: r in GroupedRows(reps, fd) && r.group == Some(n)
    {
      assert exists i :: 0 <= i < |reps| && |reps[i].members| > 1 && GroupNumber(reps, i) == n by {
        GroupNumbersDense(reps);
      }
      var i :| 0 <= i < |reps| && |reps[i].members| > 1 && GroupNumber(reps, i) == n;
      GroupHasARow(reps, fd, i);
    }
  }

  /** A representative with several members whose first member is a path of
      the table has a numbered row. */
  lemma GroupHasARow<F>(reps: seq<Rep<F>>, fd: seq<Row>, i: nat)
    requires i < |reps| && |reps[i].members| > 1 && reps[i].members[0] in RowPaths(fd)
    ensures exists r :: r in GroupedRows(reps, fd) && r.group == Some(GroupNumber(reps, i))
  {
    var k :| 0 <= k < |fd| && RowPaths(fd)[k] == reps[i].members[0];
    assert fd[k].(group := Some(GroupNumber(reps, i))) in GroupedRows(reps, fd) by {
      GroupedRowsNumbered(reps, fd);
    }
  }

  /** The Duplicate Group column of the sheet: numbered rows come before the
      unique rows, their numbers run from 1 to the number of groups and never
      decrease down the sheet; every written row is marked "No" for deletion. */
  lemma SheetGroupColumn<F>(files: seq<WalkedFile<F>>, threshold: int, dist: (F, F) -> nat)
    ensures var s := Sheet(files, threshold, dist);
      forall i :: 0 <= i < |s| && s[i].Data? ==>
        s[i].row.delete == "No" &&
        (s[i].row.group.Some? ==> 1 <= s[i].row.group.value <= MultiCount(ClusterAll(HashedFiles(files), threshold, dist)))
    ensures var s := Sheet(files, threshold, dist);
      forall i, j :: 0 <= i < j < |s| && s[i].Data? && s[j].Data? && s[j].row.group.Some? ==>
        s[i].row.group.Some? && s[i].row.group.value <= s[j].row.group.value
  {
    var reps := ClusterAll(HashedFiles(files), threshold, dist);
    var fd := FileData(files);
    ClusterWellFormed(HashedFiles(files), threshold, dist);
    var g, u := GroupedRows(reps, fd), UniqueRows(reps, fd);
    assert Sheet(files, threshold, dist) == Layout(g, u);
    TableRows(files);
    PartsColumns(reps, fd);
    LayoutGroups(g, u, MultiCount(reps));
  }

  /** A path in a member list is the path of a walked file. */
  lemma MemberIsWalked<F>(files: seq<WalkedFile<F>>, threshold: int, dist: (F, F) -> nat, i: nat, p: string)
    requires Distinct(FilePaths(files))
    requires i < |ClusterAll(HashedFiles(files), threshold, dist)|
    requires p in ClusterAll(HashedFiles(files), threshold, dist)[i].members
    ensures p in RowPaths(FileData(files))
  {
    var reps := ClusterAll(HashedFiles(files), threshold, dist);
    MemberInAllMembers(reps, i, p);
    ClusterNeverInvents(HashedFiles(files), threshold, dist);
    assert p in multiset(HashedPaths(HashedFiles(files)));
    HashedPathsAreWalkedPaths(files);
    FileDataPaths(files);
  }

  /** Every member of the final dictionary is a path of the file table. */
  lemma MembersAreWalked<F>(files: seq<WalkedFile<F>>, threshold: int, dist: (F, F) -> nat)
    requires Distinct(FilePaths(files))
    ensures forall i, p ::
      (0 <= i < |ClusterAll(HashedFiles(files), threshold, dist)| && p in ClusterAll(HashedFiles(files), threshold, dist)[i].members)
      ==> p in RowPaths(FileData(files))
  {
    var reps := ClusterAll(HashedFiles(files), threshold, dist);
    forall i, p | 0 <= i < |reps| && p in reps[i].members
      ensures p in RowPaths(FileData(files))
    {
      MemberIsWalked(files, threshold, dist, i, p);
    }
  }

  /** Every group number from 1 to the number of groups appears in the sheet. */
  lemma SheetGroupsDense<F>(files: seq<WalkedFile<F>>, threshold: int, dist: (F, F) -> nat)
    requires Distinct(FilePaths(files))
    ensures var s := Sheet(files, threshold, dist);
      forall n :: n in OneTo(MultiCount(ClusterAll(HashedFiles(files), threshold, dist))) ==>
        exists i :: 0 <= i < |s| && s[i].Data? && s[i].row.group == Some(n)
  {
    var reps := ClusterAll(HashedFiles(files), threshold, dist);
    var fd := FileData(files);
    ClusterWellFormed(HashedFiles(files), threshold, dist);
    var g, u := GroupedRows(reps, fd), UniqueRows(reps, fd);
    var s := Sheet(files, threshold, dist);
    assert s == Layout(g, u);
    assert forall n :: n in OneTo(MultiCount(reps)) ==> exists r :: r in g && r.group == Some(n) by {
      MembersAreWalked(files, threshold, dist);
      GroupedRowsDense(reps, fd);
    }
    forall n | n in OneTo(MultiCount(reps))
      ensures exists i :: 0 <= i < |s| && s[i].Data? && s[i].row.group == Some(n)
    {
      var r :| r in g && r.group == Some(n);
      var a :| 0 <= a < |g| && g[a] == r;
      assert s[a] == Data(g[a]);
    }
  }
}
