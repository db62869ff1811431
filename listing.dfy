/** The duplicate finder of the web application (`list_files_and_find_duplicates`
    in app.py): the walk loop that builds the file table and the representative
    dictionary (app.py:28-96), the numbering of duplicate groups
    (app.py:98-112) and the order in which rows are written (app.py:114-121).
    Writing the workbook is left to a collaborator: the result here is the
    sequence of rows it would receive. */
module Listing {
  import opened Records
  import opened Media
  import opened Clustering
  import opened Walk

  /** The row the walk appends for a file (app.py:64, 72, 80, 88, 95): size
      and modification time only for a media file whose metadata was read,
      no group, Delete "No". */
  function InitialRow<F>(f: WalkedFile<F>): (r: Row)
    ensures r.path == f.path && r.group == None && r.delete == "No"
  {
    if IsImageOrVideo(f.name) && !f.probe.Unreadable? then
      Row(f.name, f.directory, f.path, Some(f.probe.size), Some(f.probe.modified), None, "No")
    else
      Row(f.name, f.directory, f.path, None, None, None, "No")
  }

  /** `file_data`: one initial row per walked file, in walk order. */
  function FileData<F>(files: seq<WalkedFile<F>>): (fd: seq<Row>)
    ensures |fd| == |files|
    ensures forall i :: 0 <= i < |files| ==> fd[i] == InitialRow(files[i])
  {
    seq(|files|, i requires 0 <= i < |files| => InitialRow(files[i]))
  }

  lemma FileDataSnoc<F>(files: seq<WalkedFile<F>>, f: WalkedFile<F>)
    ensures FileData(files + [f]) == FileData(files) + [InitialRow(f)]
  {
    assert (files + [f])[..|files|] == files;
  }

  /** The rows of `fd` whose path is among `members`, each given group number
      `g`, in the order of `fd` (app.py:104-107). */
  function Numbered(fd: seq<Row>, members: seq<string>, g: int): seq<Row>
    decreases |fd|
  {
    if fd == [] then []
    else
      var r := fd[|fd| - 1];
      Numbered(fd[..|fd| - 1], members, g) + (if r.path in members then [r.(group := Some(g))] else [])
  }

  /** The rows of `fd` whose path is `p` (app.py:110-112). */
  function WithPath(fd: seq<Row>, p: string): seq<Row>
    decreases |fd|
  {
    if fd == [] then []
    else
      var r := fd[|fd| - 1];
      WithPath(fd[..|fd| - 1], p) + (if r.path == p then [r] else [])
  }

  /** `grouped_files` after the numbering loop has visited `reps`. */
  function GroupedRows<F>(reps: seq<Rep<F>>, fd: seq<Row>): seq<Row>
    decreases |reps|
  {
    if reps == [] then []
    else
      var n := |reps| - 1;
      GroupedRows(reps[..n], fd)
        + (if |reps[n].members| > 1 then Numbered(fd, reps[n].members, MultiCount(reps[..n]) + 1) else [])
  }

  /** `unique_files` after the numbering loop has visited `reps`. */
  function UniqueRows<F>(reps: seq<Rep<F>>, fd: seq<Row>): seq<Row>
    requires forall i :: 0 <= i < |reps| ==> |reps[i].members| > 0
    decreases |reps|
  {
    if reps == [] then []
    else
      var n := |reps| - 1;
      UniqueRows(reps[..n], fd) + (if |reps[n].members| > 1 then [] else WithPath(fd, reps[n].members[0]))
  }

  /** A written sheet row: a file's row or the blank separator row. */
  datatype SheetRow = Data(row: Row) | Separator

  function AsData(rows: seq<Row>): (s: seq<SheetRow>)
    ensures |s| == |rows| && forall i :: 0 <= i < |rows| ==> s[i] == Data(rows[i])
  {
    seq(|rows|, i requires 0 <= i < |rows| => Data(rows[i]))
  }

  /** Grouped rows, then a blank row when both parts are non-empty, then unique rows (app.py:114-121). */
  function Layout(grouped: seq<Row>, unique: seq<Row>): (s: seq<SheetRow>)
    ensures |s| == |grouped| + |unique| + (if grouped != [] && unique != [] then 1 else 0)
    ensures forall i :: 0 <= i < |grouped| ==> s[i] == Data(grouped[i])
    ensures forall j :: 0 <= j < |unique| ==> s[|s| - |unique| + j] == Data(unique[j])
    ensures Separator in s <==> grouped != [] && unique != []
  {
    AsData(grouped) + (if grouped != [] && unique != [] then [Separator] else []) + AsData(unique)
  }

  /** The rows `list_files_and_find_duplicates` writes below the header. */
  function Sheet<F(==)>(files: seq<WalkedFile<F>>, threshold: int, dist: (F, F) -> nat): seq<SheetRow> {
    var reps := ClusterAll(HashedFiles(files), threshold, dist);
    ClusterWellFormed(HashedFiles(files), threshold, dist);
    Layout(GroupedRows(reps, FileData(files)), UniqueRows(reps, FileData(files)))
  }

  /** The group-numbering loop (app.py:99-112). Each row is numbered at most
      once because each path is in at most one member list, so copying rows
      here shows what the source's shared, updated-in-place rows show. */
  method AssignGroups<F>(reps: seq<Rep<F>>, fd: seq<Row>) returns (grouped: seq<Row>, unique: seq<Row>)
    requires forall i :: 0 <= i < |reps| ==> |reps[i].members| > 0
    ensures grouped == GroupedRows(reps, fd) && unique == UniqueRows(reps, fd)
  {
    grouped, unique := [], [];
    var counter := 1;
    var k := 0;
    while k < |reps|
      invariant 0 <= k <= |reps|
      invariant counter == MultiCount(reps[..k]) + 1
      invariant grouped == GroupedRows(reps[..k], fd)
      invariant unique == UniqueRows(reps[..k], fd)
    {
      var members := reps[k].members;
      assert reps[..k + 1][..k] == reps[..k];
      if |members| > 1 {
        grouped := NumberMembers(grouped, fd, members, counter);
        counter := counter + 1;
      } else {
        unique := CopyUnique(unique, fd, members[0]);
      }
      k := k + 1;
    }
    assert reps[..k] == reps;
  }

  /** The inner loop for a representative with several members (app.py:104-107):
      every table row whose path is a member is numbered and appended. */
  method NumberMembers(grouped: seq<Row>, fd: seq<Row>, members: seq<string>, counter: int)
    returns (grouped': seq<Row>)
    ensures grouped' == grouped + Numbered(fd, members, counter)
  {
    grouped' := grouped;
    var j := 0;
    while j < |fd|
      invariant 0 <= j <= |fd|
      invariant grouped' == grouped + Numbered(fd[..j], members, counter)
    {
      assert fd[..j + 1][..j] == fd[..j];
      if fd[j].path in members {
        grouped' := grouped' + [fd[j].(group := Some(counter))];
      }
      j := j + 1;
    }
    assert fd[..j] == fd;
  }

  /** The inner loop for a single-member representative (app.py:110-112):
      every table row with that path is appended. */
  method CopyUnique(unique: seq<Row>, fd: seq<Row>, p: string) returns (unique': seq<Row>)
    ensures unique' == unique + WithPath(fd, p)
  {
    unique' := unique;
    var j := 0;
    while j < |fd|
      invariant 0 <= j <= |fd|
      invariant unique' == unique + WithPath(fd[..j], p)
    {
      assert fd[..j + 1][..j] == fd[..j];
      if fd[j].path == p {
        unique' := unique' + [fd[j]];
      }
      j := j + 1;
    }
    assert fd[..j] == fd;
  }

  /** One step of the walk loop, on the specification side: the next file adds
      its initial row, and is clustered exactly when it has a fingerprint. */
  lemma ScanStep<F>(files: seq<WalkedFile<F>>, i: nat, threshold: int, dist: (F, F) -> nat)
    requires i < |files|
    ensures FileData(files[..i + 1]) == FileData(files[..i]) + [InitialRow(files[i])]
    ensures ClusterAll(HashedFiles(files[..i + 1]), threshold, dist) ==
      if Fingerprint(files[i]).Some? then
        Insert(ClusterAll(HashedFiles(files[..i]), threshold, dist), files[i].path, Fingerprint(files[i]).value, threshold, dist)
      else ClusterAll(HashedFiles(files[..i]), threshold, dist)
  {
    var f := files[i];
    assert files[..i + 1] == files[..i] + [f];
    HashedFilesSnoc(files[..i], f);
    FileDataSnoc(files[..i], f);
    if Fingerprint(f).Some? {
      ClusterAllSnoc(HashedFiles(files[..i]), f.path, Fingerprint(f).value, threshold, dist);
    } else {
      assert HashedFiles(files[..i + 1]) == HashedFiles(files[..i]);
    }
  }

  /** The walk loop (app.py:28-96): one row per file in walk order, and each
      fingerprinted file put through the duplicate check as it is met. */
  method ScanFiles<F(==)>(files: seq<WalkedFile<F>>, threshold: int, dist: (F, F) -> nat)
    returns (fileData: seq<Row>, reps: seq<Rep<F>>)
    ensures fileData == FileData(files)
    ensures reps == ClusterAll(HashedFiles(files), threshold, dist)
  {
    fileData, reps := [], [];
    var i := 0;
    assert files[..0] == [];
    while i < |files|
      invariant 0 <= i <= |files|
      invariant fileData == FileData(files[..i])
      invariant reps == ClusterAll(HashedFiles(files[..i]), threshold, dist)
    {
      ScanStep(files, i, threshold, dist);
      var fp := Fingerprint(files[i]);
      // only an image or video whose metadata and hash were read takes part in clustering
      if fp.Some? {
        reps := AddFile(reps, files[i].path, fp.value, threshold, dist);
      }
      fileData := fileData + [InitialRow(files[i])];
      i := i + 1;
    }
    assert files[..i] == files;
  }

  /** The whole of `list_files_and_find_duplicates` up to the workbook save
      (app.py:23-121): walk, cluster, number, lay out. */
  method ListFilesAndFindDuplicates<F(==)>(files: seq<WalkedFile<F>>, threshold: int, dist: (F, F) -> nat)
    returns (sheet: seq<SheetRow>)
    ensures sheet == Sheet(files, threshold, dist)
  {
    var fileData, reps := ScanFiles(files, threshold, dist);
    ClusterWellFormed(HashedFiles(files), threshold, dist);
    var grouped, unique := AssignGroups(reps, fileData);
    sheet := Layout(grouped, unique);
  }
}
