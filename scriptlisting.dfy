/** The command-line duplicate finder (`list_files_and_find_duplicates` in
    list_files_and_find_duplicates.py). It walks and clusters exactly as the
    web application does, but its table has no name or directory column and
    has a Keep column; files without a duplicate get Keep "Yes", and the
    grouped rows are written straight before the unique rows with no blank
    row between them. Writing the workbook is left to a collaborator. */
module ScriptListing {
  import opened Records
  import opened Media
  import opened Clustering
  import opened Walk
  import opened Listing
  import opened ListingFacts

  /** One row of the script's table, in column order: File Path, File Size
      (bytes), Last Modified, Duplicate Group, Keep, Delete. `None` in the
      size or modified cell stands for the "N/A" text. */
  datatype ScriptRow = ScriptRow(
    path: string,
    size: Option<nat>,
    modified: Option<string>,
    group: Option<int>,
    keep: string,
    delete: string)

  /** The row the walk appends for a file (list_files_and_find_duplicates.py:55-67):
      size and modification time only for a media file whose metadata was
      read, no group, Keep "No", Delete "No". */
  function InitialScriptRow<F>(f: WalkedFile<F>): (r: ScriptRow)
    ensures r.path == f.path && r.group == None && r.keep == "No" && r.delete == "No"
    ensures r.size.Some? <==> IsImageOrVideo(f.name) && !f.probe.Unreadable?
  {
    if IsImageOrVideo(f.name) && !f.probe.Unreadable? then
      ScriptRow(f.path, Some(f.probe.size), Some(f.probe.modified), None, "No", "No")
    else
      ScriptRow(f.path, None, None, None, "No", "No")
  }

  /** The script's `file_data`: one initial row per walked file, in walk order. */
  function ScriptData<F>(files: seq<WalkedFile<F>>): (sd: seq<ScriptRow>)
    ensures |sd| == |files|
    ensures forall i :: 0 <= i < |files| ==> sd[i] == InitialScriptRow(files[i])
  {
    seq(|files|, i requires 0 <= i < |files| => InitialScriptRow(files[i]))
  }

  /** The rows of `sd` whose path is among `members`, each given group number
      `g`, in the order of `sd` (list_files_and_find_duplicates.py:76-79). */
  function Tagged(sd: seq<ScriptRow>, members: seq<string>, g: int): seq<ScriptRow>
    decreases |sd|
  {
    if sd == [] then []
    else
      var r := sd[|sd| - 1];
      Tagged(sd[..|sd| - 1], members, g) + (if r.path in members then [r.(group := Some(g))] else [])
  }

  /** The rows of `sd` whose path is `p`, each with Keep set to "Yes"
      (list_files_and_find_duplicates.py:82-85). */
  function Kept(sd: seq<ScriptRow>, p: string): seq<ScriptRow>
    decreases |sd|
  {
    if sd == [] then []
    else
      var r := sd[|sd| - 1];
      Kept(sd[..|sd| - 1], p) + (if r.path == p then [r.(keep := "Yes")] else [])
  }

  /** `grouped_files` after the numbering loop has visited `reps`. */
  function ScriptGrouped<F>(reps: seq<Rep<F>>, sd: seq<ScriptRow>): seq<ScriptRow>
    decreases |reps|
  {
    if reps == [] then []
    else
      var n := |reps| - 1;
      ScriptGrouped(reps[..n], sd)
        + (if |reps[n].members| > 1 then Tagged(sd, reps[n].members, MultiCount(reps[..n]) + 1) else [])
  }

  /** `unique_files` after the numbering loop has visited `reps`. */
  function ScriptUnique<F>(reps: seq<Rep<F>>, sd: seq<ScriptRow>): seq<ScriptRow>
    requires forall i :: 0 <= i < |reps| ==> |reps[i].members| > 0
    decreases |reps|
  {
    if reps == [] then []
    else
      var n := |reps| - 1;
      ScriptUnique(reps[..n], sd) + (if |reps[n].members| > 1 then [] else Kept(sd, reps[n].members[0]))
  }

  /** The rows the script writes below the header: grouped rows, then unique
      rows (list_files_and_find_duplicates.py:89-93). */
  function ScriptSheet<F(==)>(files: seq<WalkedFile<F>>, threshold: int, dist: (F, F) -> nat): seq<ScriptRow> {
    var reps := ClusterAll(HashedFiles(files), threshold, dist);
    ClusterWellFormed(HashedFiles(files), threshold, dist);
    ScriptGrouped(reps, ScriptData(files)) + ScriptUnique(reps, ScriptData(files))
  }

  /** The File Path column of a script table. */
  function ScriptPaths(rows: seq<ScriptRow>): (ps: seq<string>)
    ensures |ps| == |rows|
    ensures forall i :: 0 <= i < |rows| ==> ps[i] == rows[i].path
  {
    seq(|rows|, i requires 0 <= i < |rows| => rows[i].path)
  }

  /** The walk loop (list_files_and_find_duplicates.py:27-68). */
  method ScanFiles<F(==)>(files: seq<WalkedFile<F>>, threshold: int, dist: (F, F) -> nat)
    returns (fileData: seq<ScriptRow>, reps: seq<Rep<F>>)
    ensures fileData == ScriptData(files)
    ensures reps == ClusterAll(HashedFiles(files), threshold, dist)
  {
    fileData, reps := [], [];
    var i := 0;
    while i < |files|
      invariant 0 <= i <= |files|
      invariant fileData == ScriptData(files[..i])
      invariant reps == ClusterAll(HashedFiles(files[..i]), threshold, dist)
    {
      ScanStep(files, i, threshold, dist);
      ScriptDataSnoc(files, i);
      var fp := Fingerprint(files[i]);
      if fp.Some? {
        reps := AddFile(reps, files[i].path, fp.value, threshold, dist);
      }
      fileData := fileData + [InitialScriptRow(files[i])];
      i := i + 1;
    }
    assert files[..i] == files;
  }

  /** One more walked file adds its row at the end of the script's table. */
  lemma ScriptDataSnoc<F>(files: seq<WalkedFile<F>>, i: nat)
    requires i < |files|
    ensures ScriptData(files[..i + 1]) == ScriptData(files[..i]) + [InitialScriptRow(files[i])]
  {
    var init := files[..i];
    assert files[..i + 1] == init + [files[i]];
    assert (init + [files[i]])[..i] == init;
  }

  /** The script's grouped rows of a non-empty list of representatives, last round apart. */
  lemma ScriptGroupedLast<F>(reps: seq<Rep<F>>, sd: seq<ScriptRow>)
    requires reps != []
    ensures var n := |reps| - 1;
      ScriptGrouped(reps, sd) == ScriptGrouped(reps[..n], sd)
        + (if |reps[n].members| > 1 then Tagged(sd, reps[n].members, MultiCount(reps[..n]) + 1) else [])
  {
  }

  /** The group-numbering and Keep loop (list_files_and_find_duplicates.py:70-85). */
  method AssignGroupsAndKeep<F>(reps: seq<Rep<F>>, sd: seq<ScriptRow>) returns (grouped: seq<ScriptRow>, unique: seq<ScriptRow>)
    requires forall i :: 0 <= i < |reps| ==> |reps[i].members| > 0
    ensures grouped == ScriptGrouped(reps, sd) && unique == ScriptUnique(reps, sd)
  {
    grouped, unique := [], [];
    var counter := 1;
    var k := 0;
    while k < |reps|
      invariant 0 <= k <= |reps|
      invariant counter == MultiCount(reps[..k]) + 1
      invariant grouped == ScriptGrouped(reps[..k], sd)
      invariant unique == ScriptUnique(reps[..k], sd)
    {
      var members := reps[k].members;
      assert reps[..k + 1][..k] == reps[..k];
      if |members| > 1 {
        grouped := TagMembers(grouped, sd, members, counter);
        counter := counter + 1;
      } else {
        unique := KeepUnique(unique, sd, members[0]);
      }
      k := k + 1;
    }
    assert reps[..k] == reps;
  }

  /** The inner loop for a representative with several members
      (list_files_and_find_duplicates.py:76-79). */
  method TagMembers(grouped: seq<ScriptRow>, sd: seq<ScriptRow>, members: seq<string>, counter: int)
    returns (grouped': seq<ScriptRow>)
    ensures grouped' == grouped + Tagged(sd, members, counter)
  {
    grouped' := grouped;
    var j := 0;
    while j < |sd|
      invariant 0 <= j <= |sd|
      invariant grouped' == grouped + Tagged(sd[..j], members, counter)
    {
      assert sd[..j + 1][..j] == sd[..j];
      if sd[j].path in members {
        grouped' := grouped' + [sd[j].(group := Some(counter))];
      }
      j := j + 1;
    }
    assert sd[..j] == sd;
  }

  /** The inner loop for a single-member representative
      (list_files_and_find_duplicates.py:82-85): its row gets Keep "Yes". */
  method KeepUnique(unique: seq<ScriptRow>, sd: seq<ScriptRow>, p: string) returns (unique': seq<ScriptRow>)
    ensures unique' == unique + Kept(sd, p)
  {
    unique' := unique;
    var j := 0;
    while j < |sd|
      invariant 0 <= j <= |sd|
      invariant unique' == unique + Kept(sd[..j], p)
    {
      assert sd[..j + 1][..j] == sd[..j];
      if sd[j].path == p {
        unique' := unique' + [sd[j].(keep := "Yes")];
      }
      j := j + 1;
    }
    assert sd[..j] == sd;
  }

  /** The whole of the script's `list_files_and_find_duplicates` up to the
      workbook save (list_files_and_find_duplicates.py:18-93). */
  method ListFilesAndFindDuplicates<F(==)>(files: seq<WalkedFile<F>>, threshold: int, dist: (F, F) -> nat)
    returns (sheet: seq<ScriptRow>)
    ensures sheet == ScriptSheet(files, threshold, dist)
  {
    var fileData, reps := ScanFiles(files, threshold, dist);
    ClusterWellFormed(HashedFiles(files), threshold, dist);
    var grouped, unique := AssignGroupsAndKeep(reps, fileData);
    sheet := grouped + unique;
  }

  // The script's rows are the web application's rows with a Keep cell.

  /** The script's row carrying the cells of a web-application row and the given Keep. */
  function WithKeep(r: Row, keep: string): ScriptRow {
    ScriptRow(r.path, r.size, r.modified, r.group, keep, r.delete)
  }

  function AllWithKeep(rows: seq<Row>, keep: string): (s: seq<ScriptRow>)
    ensures |s| == |rows| && forall i :: 0 <= i < |rows| ==> s[i] == WithKeep(rows[i], keep)
  {
    seq(|rows|, i requires 0 <= i < |rows| => WithKeep(rows[i], keep))
  }

  /** The script's table is the web application's table with Keep "No". */
  lemma ScriptDataIsFileData<F>(files: seq<WalkedFile<F>>)
    ensures ScriptData(files) == AllWithKeep(FileData(files), "No")
  {
  }

  lemma {:induction false} TaggedIsNumbered(fd: seq<Row>, members: seq<string>, g: int)
    ensures Tagged(AllWithKeep(fd, "No"), members, g) == AllWithKeep(Numbered(fd, members, g), "No")
    decreases |fd|
  {
    if fd != [] {
      var n := |fd| - 1;
      assert AllWithKeep(fd, "No")[..n] == AllWithKeep(fd[..n], "No");
      TaggedIsNumbered(fd[..n], members, g);
      var tail := if fd[n].path in members then [fd[n].(group := Some(g))] else [];
      assert AllWithKeep(Numbered(fd, members, g), "No") == AllWithKeep(Numbered(fd[..n], members, g), "No") + AllWithKeep(tail, "No");
    }
  }

  lemma {:induction false} KeptIsWithPath(fd: seq<Row>, p: string)
    ensures Kept(AllWithKeep(fd, "No"), p) == AllWithKeep(WithPath(fd, p), "Yes")
    decreases |fd|
  {
    if fd != [] {
      var n := |fd| - 1;
      assert AllWithKeep(fd, "No")[..n] == AllWithKeep(fd[..n], "No");
      KeptIsWithPath(fd[..n], p);
      var tail := if fd[n].path == p then [fd[n]] else [];
      assert AllWithKeep(WithPath(fd, p), "Yes") == AllWithKeep(WithPath(fd[..n], p), "Yes") + AllWithKeep(tail, "Yes");
    }
  }

  lemma AllWithKeepConcat(a: seq<Row>, b: seq<Row>, keep: string)
    ensures AllWithKeep(a + b, keep) == AllWithKeep(a, keep) + AllWithKeep(b, keep)
  {
  }

  /** The script's grouped rows are the web application's grouped rows with Keep "No". */
  lemma {:induction false} ScriptGroupedIsGroupedRows<F>(reps: seq<Rep<F>>, fd: seq<Row>)
    ensures ScriptGrouped(reps, AllWithKeep(fd, "No")) == AllWithKeep(GroupedRows(reps, fd), "No")
    decreases |reps|
  {
    if reps != [] {
      var n := |reps| - 1;
      var sd := AllWithKeep(fd, "No");
      var m := reps[n].members;
      var c := MultiCount(reps[..n]) + 1;
      var block := if |m| > 1 then Numbered(fd, m, c) else [];
      var tagged := if |m| > 1 then Tagged(sd, m, c) else [];
      assert tagged == AllWithKeep(block, "No") by {
        if |m| > 1 {
          TaggedIsNumbered(fd, m, c);
        }
      }
      ScriptGroupedIsGroupedRows(reps[..n], fd);
      ScriptGroupedLast(reps, sd);
      GroupedRowsLast(reps, fd);
      AllWithKeepConcat(GroupedRows(reps[..n], fd), block, "No");
    }
  }

  /** The script's unique rows are the web application's unique rows with Keep "Yes". */
  lemma {:induction false} ScriptUniqueIsUniqueRows<F>(reps: seq<Rep<F>>, fd: seq<Row>)
    requires forall i :: 0 <= i < |reps| ==> |reps[i].members| > 0
    ensures ScriptUnique(reps, AllWithKeep(fd, "No")) == AllWithKeep(UniqueRows(reps, fd), "Yes")
    decreases |reps|
  {
    if reps != [] {
      var n := |reps| - 1;
      var sd := AllWithKeep(fd, "No");
      var m := reps[n].members;
      var block := if |m| > 1 then [] else WithPath(fd, m[0]);
      var kept := if |m| > 1 then [] else Kept(sd, m[0]);
      assert kept == AllWithKeep(block, "Yes") by {
        if |m| == 1 {
          KeptIsWithPath(fd, m[0]);
        }
      }
      ScriptUniqueIsUniqueRows(reps[..n], fd);
      assert ScriptUnique(reps, sd) == ScriptUnique(reps[..n], sd) + kept;
      assert UniqueRows(reps, fd) == UniqueRows(reps[..n], fd) + block;
      AllWithKeepConcat(UniqueRows(reps[..n], fd), block, "Yes");
    }
  }

  /** The script writes the web application's grouped rows with Keep "No",
      then its unique rows with Keep "Yes", and no separator. */
  lemma ScriptSheetIsSheetParts<F>(files: seq<WalkedFile<F>>, threshold: int, dist: (F, F) -> nat)
    ensures WellFormed(ClusterAll(HashedFiles(files), threshold, dist))
    ensures var reps := ClusterAll(HashedFiles(files), threshold, dist);
      ScriptSheet(files, threshold, dist) ==
        AllWithKeep(GroupedRows(reps, FileData(files)), "No") + AllWithKeep(UniqueRows(reps, FileData(files)), "Yes")
  {
    var reps := ClusterAll(HashedFiles(files), threshold, dist);
    ClusterWellFormed(HashedFiles(files), threshold, dist);
    ScriptDataIsFileData(files);
    ScriptGroupedIsGroupedRows(reps, FileData(files));
    ScriptUniqueIsUniqueRows(reps, FileData(files));
  }

  /** The Keep, Delete and Duplicate Group columns of the script's sheet:
      every row is marked "No" for deletion, a row is kept exactly when it has
      no group number, numbers run from 1 to the number of groups and never
      decrease down the sheet, and every numbered row comes before every
      unnumbered one. */
  lemma ScriptSheetColumns<F>(files: seq<WalkedFile<F>>, threshold: int, dist: (F, F) -> nat)
    ensures var s := ScriptSheet(files, threshold, dist);
      forall i :: 0 <= i < |s| ==>
        s[i].delete == "No" && (s[i].keep == "Yes" <==> s[i].group == None) &&
        (s[i].group.Some? ==> 1 <= s[i].group.value <= MultiCount(ClusterAll(HashedFiles(files), threshold, dist)))
    ensures var s := ScriptSheet(files, threshold, dist);
      forall i, j :: 0 <= i < j < |s| && s[j].group.Some? ==>
        s[i].group.Some? && s[i].group.value <= s[j].group.value
  {
    var reps := ClusterAll(HashedFiles(files), threshold, dist);
    var fd := FileData(files);
    ClusterWellFormed(HashedFiles(files), threshold, dist);
    var g, u := GroupedRows(reps, fd), UniqueRows(reps, fd);
    TableRows(files);
    PartsColumns(reps, fd);
    ScriptSheetIsSheetParts(files, threshold, dist);
    var s := ScriptSheet(files, threshold, dist);
    assert s == AllWithKeep(g, "No") + AllWithKeep(u, "Yes");
    forall i | 0 <= i < |s|
      ensures s[i].delete == "No" && (s[i].keep == "Yes" <==> s[i].group == None)
      ensures s[i].group.Some? ==> 1 <= s[i].group.value <= MultiCount(reps)
    {
      if i < |g| {
        assert s[i] == WithKeep(g[i], "No") && g[i] in g;
      } else {
        assert s[i] == WithKeep(u[i - |g|], "Yes") && u[i - |g|] in u;
      }
    }
    forall i, j | 0 <= i < j < |s| && s[j].group.Some?
      ensures s[i].group.Some? && s[i].group.value <= s[j].group.value
    {
      assert j < |g|;
      assert s[i] == WithKeep(g[i], "No") && s[j] == WithKeep(g[j], "No");
    }
  }

  /** The script writes the same paths, in the same order, as the web application. */
  lemma ScriptSheetPaths<F>(files: seq<WalkedFile<F>>, threshold: int, dist: (F, F) -> nat)
    ensures ScriptPaths(ScriptSheet(files, threshold, dist)) == WrittenPaths(Sheet(files, threshold, dist))
  {
    var reps := ClusterAll(HashedFiles(files), threshold, dist);
    var fd := FileData(files);
    ClusterWellFormed(HashedFiles(files), threshold, dist);
    var g, u := GroupedRows(reps, fd), UniqueRows(reps, fd);
    assert ScriptSheet(files, threshold, dist) == AllWithKeep(g, "No") + AllWithKeep(u, "Yes") by {
      ScriptSheetIsSheetParts(files, threshold, dist);
    }
    assert WrittenPaths(Sheet(files, threshold, dist)) == RowPaths(g) + RowPaths(u) by {
      assert Sheet(files, threshold, dist) == Layout(g, u);
      LayoutPaths(g, u);
    }
    PartsPaths(g, u);
  }

  lemma PartsPaths(g: seq<Row>, u: seq<Row>)
    ensures ScriptPaths(AllWithKeep(g, "No") + AllWithKeep(u, "Yes")) == RowPaths(g) + RowPaths(u)
  {
  }

  /** Only fingerprinted files are written, none twice. */
  lemma ScriptWritesOnlyFingerprintedFiles<F>(files: seq<WalkedFile<F>>, threshold: int, dist: (F, F) -> nat)
    requires Distinct(FilePaths(files))
    ensures multiset(ScriptPaths(ScriptSheet(files, threshold, dist))) <= multiset(HashedPaths(HashedFiles(files)))
    ensures Distinct(ScriptPaths(ScriptSheet(files, threshold, dist)))
    ensures forall f :: f in files && Fingerprint(f).None? ==> f.path !in ScriptPaths(ScriptSheet(files, threshold, dist))
  {
    ScriptSheetPaths(files, threshold, dist);
    SheetWritesOnlyFingerprintedFiles(files, threshold, dist);
  }

  /** With a positive threshold and a distance that puts every fingerprint at
      0 from itself, every fingerprinted file is written exactly once. */
  lemma ScriptWritesEveryFingerprintedFileOnce<F>(files: seq<WalkedFile<F>>, threshold: int, dist: (F, F) -> nat)
    requires Distinct(FilePaths(files))
    requires threshold > 0 && forall x :: dist(x, x) == 0
    ensures multiset(ScriptPaths(ScriptSheet(files, threshold, dist))) == multiset(HashedPaths(HashedFiles(files)))
  {
    ScriptSheetPaths(files, threshold, dist);
    SheetWritesEveryFingerprintedFileOnce(files, threshold, dist);
  }

  /** Every group number from 1 to the number of groups appears in the script's sheet. */
  lemma ScriptGroupsDense<F>(files: seq<WalkedFile<F>>, threshold: int, dist: (F, F) -> nat)
    requires Distinct(FilePaths(files))
    ensures var s := ScriptSheet(files, threshold, dist);
      forall n :: n in OneTo(MultiCount(ClusterAll(HashedFiles(files), threshold, dist))) ==>
        exists i :: 0 <= i < |s| && s[i].group == Some(n)
  {
    var reps := ClusterAll(HashedFiles(files), threshold, dist);
    var fd := FileData(files);
    ClusterWellFormed(HashedFiles(files), threshold, dist);
    var g, u := GroupedRows(reps, fd), UniqueRows(reps, fd);
    ScriptSheetIsSheetParts(files, threshold, dist);
    var s := ScriptSheet(files, threshold, dist);
    assert s == AllWithKeep(g, "No") + AllWithKeep(u, "Yes");
    assert forall n :: n in OneTo(MultiCount(reps)) ==> exists r :: r in g && r.group == Some(n) by {
      MembersAreWalked(files, threshold, dist);
      GroupedRowsDense(reps, fd);
    }
    forall n | n in OneTo(MultiCount(reps))
      ensures exists i :: 0 <= i < |s| && s[i].group == Some(n)
    {
      var r :| r in g && r.group == Some(n);
      GroupedRowInScriptSheet(g, u, s, r);
    }
  }

  /** A grouped row's group number reaches the script's sheet. */
  lemma GroupedRowInScriptSheet(g: seq<Row>, u: seq<Row>, s: seq<ScriptRow>, r: Row)
    requires s == AllWithKeep(g, "No") + AllWithKeep(u, "Yes") && r in g
    ensures exists i :: 0 <= i < |s| && s[i].group == r.group
  {
    var a :| 0 <= a < |g| && g[a] == r;
    assert s[a] == WithKeep(g[a], "No");
  }
}
