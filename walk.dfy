/** What the directory walk hands to the duplicate finder: one entry per file,
    in walk order, with the outcome of inspecting it. Walking, reading
    metadata and hashing images are done by collaborators; only their answers
    are modelled. */
module Walk {
  import opened Records
  import opened Media
  import opened Clustering

  /** What inspecting a media file gave. */
  datatype Probe<F> =
    | Unreadable                                // reading its size or modification time raised
    | HashFailed(size: nat, modified: string)   // opening or hashing the image raised
    | Hashed(size: nat, modified: string, fp: F)

  /** One walked file: its name, its directory relative to the root ("./..."),
      its full path and what inspecting it would give. */
  datatype WalkedFile<F> = WalkedFile(name: string, directory: string, path: string, probe: Probe<F>)

  function FilePaths<F>(files: seq<WalkedFile<F>>): (ps: seq<string>)
    ensures |ps| == |files| && forall i :: 0 <= i < |files| ==> ps[i] == files[i].path
    decreases |files|
  {
    if files == [] then [] else FilePaths(files[..|files| - 1]) + [files[|files| - 1].path]
  }

  /** The fingerprint a file contributes to clustering: only an image or video
      whose metadata and hash were both read has one. */
  function Fingerprint<F>(f: WalkedFile<F>): Option<F> {
    if IsImageOrVideo(f.name) && f.probe.Hashed? then Some(f.probe.fp) else None
  }

  /** The (path, fingerprint) pairs the walk feeds to the clustering, in walk order. */
  function HashedFiles<F>(files: seq<WalkedFile<F>>): seq<(string, F)>
    decreases |files|
  {
    if files == [] then []
    else
      var f := files[|files| - 1];
      HashedFiles(files[..|files| - 1]) + (if Fingerprint(f).Some? then [(f.path, Fingerprint(f).value)] else [])
  }

  /** The fingerprinted paths are a selection of the walked paths: with no path
      walked twice none is fingerprinted twice, and a file without a
      fingerprint is not among them. */
  lemma HashedPathsAreWalkedPaths<F>(files: seq<WalkedFile<F>>)
    requires Distinct(FilePaths(files))
    ensures Distinct(HashedPaths(HashedFiles(files)))
    ensures forall q :: q in HashedPaths(HashedFiles(files)) ==> q in FilePaths(files)
    ensures forall f :: f in files && Fingerprint(f).None? ==> f.path !in HashedPaths(HashedFiles(files))
  {
    HashedPathsDistinct(files);
    UnhashedNotListed(files);
  }

  /** With no path walked twice, none is fingerprinted twice, and every
      fingerprinted path was walked. */
  lemma {:induction false} HashedPathsDistinct<F>(files: seq<WalkedFile<F>>)
    requires Distinct(FilePaths(files))
    ensures Distinct(HashedPaths(HashedFiles(files)))
    ensures forall q :: q in HashedPaths(HashedFiles(files)) ==> q in FilePaths(files)
    decreases |files|
  {
    if files != [] {
      var n := |files| - 1;
      var init := files[..n];
      var f := files[n];
      assert FilePaths(files) == FilePaths(init) + [f.path];
      assert Distinct(FilePaths(init));
      HashedPathsDistinct(init);
      var hashed := HashedPaths(HashedFiles(init));
      var extra := if Fingerprint(f).Some? then [(f.path, Fingerprint(f).value)] else [];
      assert HashedFiles(files) == HashedFiles(init) + extra;
      HashedPathsAppend(HashedFiles(init), extra);
      assert f.path !in FilePaths(init);
      if Fingerprint(f).Some? {
        assert HashedPaths(HashedFiles(files)) == hashed + [f.path];
        DistinctSnoc(hashed, f.path);
      } else {
        assert HashedPaths(HashedFiles(files)) == hashed;
      }
    }
  }

  /** With no path walked twice, a file without a fingerprint leaves its path
      out of the fingerprinted ones. */
  lemma {:induction false} UnhashedNotListed<F>(files: seq<WalkedFile<F>>)
    requires Distinct(FilePaths(files))
    ensures forall f :: f in files && Fingerprint(f).None? ==> f.path !in HashedPaths(HashedFiles(files))
    decreases |files|
  {
    if files != [] {
      var n := |files| - 1;
      var init := files[..n];
      var f := files[n];
      assert FilePaths(files) == FilePaths(init) + [f.path];
      assert Distinct(FilePaths(init));
      UnhashedNotListed(init);
      HashedPathsDistinct(init);
      var extra := if Fingerprint(f).Some? then [(f.path, Fingerprint(f).value)] else [];
      assert HashedFiles(files) == HashedFiles(init) + extra;
      HashedPathsAppend(HashedFiles(init), extra);
      assert f.path !in FilePaths(init);
      forall g | g in files && Fingerprint(g).None?
        ensures g.path !in HashedPaths(HashedFiles(files))
      {
        if g != f {
          var k :| 0 <= k < |files| && files[k] == g;
          if k == n {
            assert false;
          }
          assert g in init;
        }
      }
    }
  }

  lemma {:induction false} HashedPathsAppend<F>(a: seq<(string, F)>, b: seq<(string, F)>)
    ensures HashedPaths(a + b) == HashedPaths(a) + HashedPaths(b)
    decreases |b|
  {
    if b != [] {
      var n := |b| - 1;
      assert (a + b)[..|a + b| - 1] == a + b[..n];
      HashedPathsAppend(a, b[..n]);
    } else {
      assert a + b == a;
    }
  }

  /** One more walked file adds its (path, fingerprint) pair when it has a fingerprint. */
  lemma HashedFilesSnoc<F>(files: seq<WalkedFile<F>>, f: WalkedFile<F>)
    ensures HashedFiles(files + [f]) ==
      HashedFiles(files) + (if Fingerprint(f).Some? then [(f.path, Fingerprint(f).value)] else [])
  {
    assert (files + [f])[..|files|] == files;
  }
}
