/** Greedy first-fit clustering of fingerprinted files (app.py:44-53; the same
    loop is list_files_and_find_duplicates.py:39-48) and the dense numbering of
    the representatives that end up with more than one member (app.py:101-108,
    list_files_and_find_duplicates.py:73-80).

    The fingerprint is a type parameter `F`; `dist(a, b)` stands for the
    library's `a - b` (a Hamming distance for average hashes). The
    representative dictionary, whose iteration order is insertion order, is a
    sequence of `Rep`s. */
module Clustering {
  import opened Records

  /** One dictionary entry: the fingerprint it was created under (its key) and
      the paths that joined it, in joining order. */
  datatype Rep<F> = Rep(key: F, members: seq<string>)

  /** The earliest representative whose key lies strictly within `threshold`
      of `h`, or None when no representative qualifies. */
  function FirstMatch<F>(reps: seq<Rep<F>>, h: F, threshold: int, dist: (F, F) -> nat): (r: Option<nat>)
    ensures r.Some? ==> r.value < |reps| && dist(h, reps[r.value].key) < threshold
    ensures r.Some? ==> forall j :: 0 <= j < r.value ==> dist(h, reps[j].key) >= threshold
    ensures r.None? ==> forall j :: 0 <= j < |reps| ==> dist(h, reps[j].key) >= threshold
    decreases |reps|
  {
    if reps == [] then None
    else if dist(h, reps[0].key) < threshold then Some(0)
    else
      match FirstMatch(reps[1..], h, threshold, dist)
      case None => None
      case Some(i) => Some(i + 1)
  }

  /** Dictionary lookup by key: the position of the entry stored under `h`. */
  function KeyIndex<F(==)>(reps: seq<Rep<F>>, h: F): (r: Option<nat>)
    ensures r.Some? ==> r.value < |reps| && reps[r.value].key == h
    ensures r.None? ==> forall j :: 0 <= j < |reps| ==> reps[j].key != h
    decreases |reps|
  {
    if reps == [] then None
    else if reps[0].key == h then Some(0)
    else
      match KeyIndex(reps[1..], h)
      case None => None
      case Some(i) => Some(i + 1)
  }

  /** What one fingerprinted file does to the dictionary: it joins the first
      representative within the threshold; otherwise `d[h] = [p]` stores a new
      entry, which, when `h` is already a key, replaces that entry's member
      list in place. */
  function Insert<F(==)>(reps: seq<Rep<F>>, p: string, h: F, threshold: int, dist: (F, F) -> nat): (r: seq<Rep<F>>)
    // a representative's key never changes once created
    ensures |reps| <= |r| && forall i :: 0 <= i < |reps| ==> r[i].key == reps[i].key
    // the file joins the earliest representative within the threshold, and only that one changes
    ensures FirstMatch(reps, h, threshold, dist).Some? ==>
      var i := FirstMatch(reps, h, threshold, dist).value;
      |r| == |reps| && r[i].members == reps[i].members + [p] &&
      forall j :: 0 <= j < |reps| && j != i ==> r[j] == reps[j]
    // with no representative within the threshold and `h` not yet a key, a new one is created last
    ensures FirstMatch(reps, h, threshold, dist).None? && KeyIndex(reps, h).None? ==>
      r == reps + [Rep(h, [p])]
    // with no representative within the threshold but `h` already a key, that
    // entry's member list is overwritten by `[p]` and its earlier members are lost
    ensures FirstMatch(reps, h, threshold, dist).None? && KeyIndex(reps, h).Some? ==>
      r == reps[KeyIndex(reps, h).value := Rep(h, [p])]
  {
    match FirstMatch(reps, h, threshold, dist)
    case Some(i) => reps[i := Rep(reps[i].key, reps[i].members + [p])]
    case None =>
      match KeyIndex(reps, h)
      case Some(k) => reps[k := Rep(h, [p])]
      case None => reps + [Rep(h, [p])]
  }

  /** The duplicate-check loop for one fingerprinted file, as the walk runs it. */
  method AddFile<F(==)>(reps: seq<Rep<F>>, p: string, h: F, threshold: int, dist: (F, F) -> nat)
    returns (r: seq<Rep<F>>)
    ensures r == Insert(reps, p, h, threshold, dist)
  {
    var i := 0;
    while i < |reps|
      invariant 0 <= i <= |reps|
      invariant forall j :: 0 <= j < i ==> dist(h, reps[j].key) >= threshold
    {
      if dist(h, reps[i].key) < threshold {
        r := reps[i := Rep(reps[i].key, reps[i].members + [p])];
        return;
      }
      i := i + 1;
    }
    match KeyIndex(reps, h)
    case Some(k) => r := reps[k := Rep(h, [p])];
    case None => r := reps + [Rep(h, [p])];
  }

  /** The dictionary after the whole walk: the (path, fingerprint) pairs of the
      fingerprinted files, inserted in walk order. */
  function ClusterAll<F(==)>(hashed: seq<(string, F)>, threshold: int, dist: (F, F) -> nat): seq<Rep<F>>
    decreases |hashed|
  {
    if hashed == [] then []
    else
      var n := |hashed| - 1;
      Insert(ClusterAll(hashed[..n], threshold, dist), hashed[n].0, hashed[n].1, threshold, dist)
  }

  lemma ClusterAllSnoc<F>(hashed: seq<(string, F)>, p: string, h: F, threshold: int, dist: (F, F) -> nat)
    ensures ClusterAll(hashed + [(p, h)], threshold, dist) == Insert(ClusterAll(hashed, threshold, dist), p, h, threshold, dist)
  {
    assert (hashed + [(p, h)])[..|hashed|] == hashed;
  }

  /** The paths of the fingerprinted files, in walk order. */
  function HashedPaths<F>(hashed: seq<(string, F)>): (ps: seq<string>)
    ensures |ps| == |hashed| && forall i :: 0 <= i < |hashed| ==> ps[i] == hashed[i].0
    decreases |hashed|
  {
    if hashed == [] then [] else HashedPaths(hashed[..|hashed| - 1]) + [hashed[|hashed| - 1].0]
  }

  /** The member lists of all representatives, in dictionary order, one after another. */
  function AllMembers<F>(reps: seq<Rep<F>>): seq<string>
    decreases |reps|
  {
    if reps == [] then [] else AllMembers(reps[..|reps| - 1]) + reps[|reps| - 1].members
  }

  /** Every member list is non-empty and no two entries share a key. */
  predicate WellFormed<F(==)>(reps: seq<Rep<F>>) {
    && (forall i :: 0 <= i < |reps| ==> |reps[i].members| > 0)
    && (forall i, j :: 0 <= i < j < |reps| ==> reps[i].key != reps[j].key)
  }

  lemma InsertKeepsWellFormed<F>(reps: seq<Rep<F>>, p: string, h: F, threshold: int, dist: (F, F) -> nat)
    requires WellFormed(reps)
    ensures WellFormed(Insert(reps, p, h, threshold, dist))
  {
  }

  /** The dictionary never has an empty member list or a repeated key. */
  lemma {:induction false} ClusterWellFormed<F>(hashed: seq<(string, F)>, threshold: int, dist: (F, F) -> nat)
    ensures WellFormed(ClusterAll(hashed, threshold, dist))
    decreases |hashed|
  {
    if hashed != [] {
      var n := |hashed| - 1;
      ClusterWellFormed(hashed[..n], threshold, dist);
      InsertKeepsWellFormed(ClusterAll(hashed[..n], threshold, dist), hashed[n].0, hashed[n].1, threshold, dist);
    }
  }

  lemma {:induction false} AllMembersAppend<F>(reps: seq<Rep<F>>, x: Rep<F>)
    ensures AllMembers(reps + [x]) == AllMembers(reps) + x.members
  {
    assert (reps + [x])[..|reps|] == reps;
  }

  /** Replacing one member list swaps its paths for the new ones in the overall multiset. */
  lemma {:induction false} AllMembersConcat<F>(a: seq<Rep<F>>, b: seq<Rep<F>>)
    ensures AllMembers(a + b) == AllMembers(a) + AllMembers(b)
    decreases |b|
  {
    if b == [] {
      assert a + b == a;
    } else {
      var n := |b| - 1;
      assert (a + b)[..|a + b| - 1] == a + b[..n];
      AllMembersConcat(a, b[..n]);
    }
  }

  lemma {:induction false} AllMembersReplace<F>(reps: seq<Rep<F>>, i: nat, x: Rep<F>)
    requires i < |reps|
    ensures multiset(AllMembers(reps[i := x])) + multiset(reps[i].members)
         == multiset(AllMembers(reps)) + multiset(x.members)
  {
    var pre, post := reps[..i], reps[i + 1..];
    assert reps == pre + [reps[i]] + post;
    assert reps[i := x] == pre + [x] + post;
    AllMembersConcat(pre + [reps[i]], post);
    AllMembersConcat(pre, [reps[i]]);
    AllMembersConcat(pre + [x], post);
    AllMembersConcat(pre, [x]);
    assert [reps[i]][..0] == [] && [x][..0] == [];
  }

  lemma MemberInAllMembers<F>(reps: seq<Rep<F>>, i: nat, p: string)
    requires i < |reps| && p in reps[i].members
    ensures p in AllMembers(reps)
  {
    assert reps == reps[..i] + [reps[i]] + reps[i + 1..];
    AllMembersConcat(reps[..i] + [reps[i]], reps[i + 1..]);
    AllMembersConcat(reps[..i], [reps[i]]);
    assert [reps[i]][..0] == [];
  }

  /** Inserting one path adds at most that path; it adds exactly that path
      unless an existing entry's member list is overwritten, and then exactly
      that entry's former members are lost. */
  lemma InsertMembers<F>(reps: seq<Rep<F>>, p: string, h: F, threshold: int, dist: (F, F) -> nat)
    ensures multiset(AllMembers(Insert(reps, p, h, threshold, dist))) <= multiset(AllMembers(reps)) + multiset{p}
    ensures FirstMatch(reps, h, threshold, dist).Some? || KeyIndex(reps, h).None? ==>
      multiset(AllMembers(Insert(reps, p, h, threshold, dist))) == multiset(AllMembers(reps)) + multiset{p}
    ensures FirstMatch(reps, h, threshold, dist).None? && KeyIndex(reps, h).Some? ==>
      multiset(AllMembers(Insert(reps, p, h, threshold, dist))) + multiset(reps[KeyIndex(reps, h).value].members)
        == multiset(AllMembers(reps)) + multiset{p}
  {
    var r := Insert(reps, p, h, threshold, dist);
    match FirstMatch(reps, h, threshold, dist)
    case Some(i) =>
      var x := Rep(reps[i].key, reps[i].members + [p]);
      assert r == reps[i := x];
      AllMembersReplace(reps, i, x);
      assert multiset(x.members) == multiset(reps[i].members) + multiset{p};
      Cancel(multiset(AllMembers(r)), multiset(AllMembers(reps)) + multiset{p}, multiset(reps[i].members));
    case None =>
      match KeyIndex(reps, h)
      case Some(k) =>
        assert r == reps[k := Rep(h, [p])];
        AllMembersReplace(reps, k, Rep(h, [p]));
        assert multiset(AllMembers(r)) + multiset(reps[k].members) == multiset(AllMembers(reps)) + multiset{p};
      case None =>
        AllMembersAppend(reps, Rep(h, [p]));
  }

  /** No path appears in the dictionary more often than among the fingerprinted files. */
  lemma {:induction false} ClusterNeverInvents<F>(hashed: seq<(string, F)>, threshold: int, dist: (F, F) -> nat)
    ensures multiset(AllMembers(ClusterAll(hashed, threshold, dist))) <= multiset(HashedPaths(hashed))
    decreases |hashed|
  {
    if hashed != [] {
      var n := |hashed| - 1;
      var reps := ClusterAll(hashed[..n], threshold, dist);
      var r := Insert(reps, hashed[n].0, hashed[n].1, threshold, dist);
      assert ClusterAll(hashed, threshold, dist) == r;
      ClusterNeverInvents(hashed[..n], threshold, dist);
      InsertMembers(reps, hashed[n].0, hashed[n].1, threshold, dist);
      SubsetStep(multiset(AllMembers(r)), multiset(AllMembers(reps)), multiset(HashedPaths(hashed[..n])), hashed[n].0);
    }
  }

  lemma Cancel<T>(a: multiset<T>, b: multiset<T>, c: multiset<T>)
    requires a + c == b + c
    ensures a == b
  {
    forall x
      ensures a[x] == b[x]
    {
      assert (a + c)[x] == (b + c)[x];
    }
  }

  lemma SubsetStep<T>(after: multiset<T>, before: multiset<T>, paths: multiset<T>, p: T)
    requires after <= before + multiset{p} && before <= paths
    ensures after <= paths + multiset{p}
  {
  }

  /** With a positive threshold and a distance that is zero on equal
      fingerprints, every fingerprinted file lands in exactly one member list:
      the member lists hold the fingerprinted paths, nothing lost or repeated. */
  lemma {:induction false} ClusterKeepsEveryFile<F>(hashed: seq<(string, F)>, threshold: int, dist: (F, F) -> nat)
    requires threshold > 0
    requires forall x :: dist(x, x) == 0
    ensures multiset(AllMembers(ClusterAll(hashed, threshold, dist))) == multiset(HashedPaths(hashed))
    decreases |hashed|
  {
    if hashed != [] {
      var n := |hashed| - 1;
      var reps := ClusterAll(hashed[..n], threshold, dist);
      var h := hashed[n].1;
      var r := Insert(reps, hashed[n].0, h, threshold, dist);
      assert ClusterAll(hashed, threshold, dist) == r;
      ClusterKeepsEveryFile(hashed[..n], threshold, dist);
      // an entry stored under `h` would be at distance 0 < threshold, so no overwrite happens
      InsertMembers(reps, hashed[n].0, h, threshold, dist);
    }
  }

  /** When a file's own fingerprint is not within the threshold of itself
      (a threshold of 0 or less), a second file with the same fingerprint
      replaces the first in the dictionary: the first file is in no member list. */
  lemma SameFingerprintAtNonPositiveThresholdDropsFirstFile<F>(
    p: string, q: string, h: F, threshold: int, dist: (F, F) -> nat)
    requires threshold <= dist(h, h)
    requires p != q
    ensures ClusterAll([(p, h), (q, h)], threshold, dist) == [Rep(h, [q])]
    ensures p !in AllMembers(ClusterAll([(p, h), (q, h)], threshold, dist))
  {
    var hashed := [(p, h), (q, h)];
    assert hashed[..1] == [(p, h)];
    assert hashed[..1][..0] == [];
    assert ClusterAll(hashed[..1], threshold, dist) == [Rep(h, [p])];
    assert AllMembers([Rep(h, [q])]) == [q] by {
      assert [Rep(h, [q])][..0] == [];
    }
  }

  /** The distance on plain numbers used by the two counterexamples below. */
  function Gap(a: int, b: int): nat {
    if a < b then b - a else a - b
  }

  /** Raising the threshold can separate files that a lower threshold put
      together: with fingerprints 0, 3 and 5, threshold 3 groups the second
      and third files, threshold 4 puts the second with the first and the
      third on its own. */
  lemma LooserThresholdCanSplitAPair()
    ensures ClusterAll([("a", 0), ("b", 3), ("c", 5)], 3, Gap) == [Rep(0, ["a"]), Rep(3, ["b", "c"])]
    ensures ClusterAll([("a", 0), ("b", 3), ("c", 5)], 4, Gap) == [Rep(0, ["a", "b"]), Rep(5, ["c"])]
  {
    ClusteredAtThree();
    ClusteredAtFour();
  }

  lemma ClusteredAtThree()
    ensures ClusterAll([("a", 0), ("b", 3), ("c", 5)], 3, Gap) == [Rep(0, ["a"]), Rep(3, ["b", "c"])]
  {
    ThreeFilesAt(3);
    SecondStaysApartAtThree();
    ThirdJoinsSecondAtThree();
  }

  lemma SecondStaysApartAtThree()
    ensures Insert(Insert([], "a", 0, 3, Gap), "b", 3, 3, Gap) == [Rep(0, ["a"]), Rep(3, ["b"])]
  {
    var one := [Rep(0, ["a"])];
    assert Insert([], "a", 0, 3, Gap) == one;
    assert FirstMatch(one, 3, 3, Gap) == None;
  }

  lemma ThirdJoinsSecondAtThree()
    ensures Insert([Rep(0, ["a"]), Rep(3, ["b"])], "c", 5, 3, Gap) == [Rep(0, ["a"]), Rep(3, ["b", "c"])]
  {
    assert FirstMatch([Rep(0, ["a"]), Rep(3, ["b"])], 5, 3, Gap) == Some(1);
    assert ["b"] + ["c"] == ["b", "c"];
  }

  lemma ClusteredAtFour()
    ensures ClusterAll([("a", 0), ("b", 3), ("c", 5)], 4, Gap) == [Rep(0, ["a", "b"]), Rep(5, ["c"])]
  {
    ThreeFilesAt(4);
    var one := Insert([], "a", 0, 4, Gap);
    assert one == [Rep(0, ["a"])];
    assert FirstMatch(one, 3, 4, Gap) == Some(0);
    assert ["a"] + ["b"] == ["a", "b"];
    var two := Insert(one, "b", 3, 4, Gap);
    assert two == [Rep(0, ["a", "b"])];
    assert FirstMatch(two, 5, 4, Gap) == None;
    assert KeyIndex(two, 5) == None;
  }

  /** The three steps of clustering fingerprints 0, 3 and 5 at one threshold. */
  lemma ThreeFilesAt(threshold: int)
    ensures ClusterAll([("a", 0), ("b", 3), ("c", 5)], threshold, Gap) ==
      Insert(Insert(Insert([], "a", 0, threshold, Gap), "b", 3, threshold, Gap), "c", 5, threshold, Gap)
  {
    var h1: seq<(string, int)> := [("a", 0)];
    var h2 := h1 + [("b", 3)];
    ClusterAllSnoc([], "a", 0, threshold, Gap);
    assert [] + h1 == h1;
    ClusterAllSnoc(h1, "b", 3, threshold, Gap);
    ClusterAllSnoc(h2, "c", 5, threshold, Gap);
    assert h2 + [("c", 5)] == [("a", 0), ("b", 3), ("c", 5)];
  }

  /** The number of representatives with more than one member. */
  function MultiCount<F>(reps: seq<Rep<F>>): nat
    decreases |reps|
  {
    if reps == [] then 0
    else MultiCount(reps[..|reps| - 1]) + (if |reps[|reps| - 1].members| > 1 then 1 else 0)
  }

  /** The group number the numbering loop gives representative `i`: one more
      than the number of multi-member representatives before it. */
  function GroupNumber<F>(reps: seq<Rep<F>>, i: nat): int
    requires i < |reps|
  {
    MultiCount(reps[..i]) + 1
  }

  lemma {:induction false} MultiCountGrows<F>(reps: seq<Rep<F>>, i: nat, j: nat)
    requires i <= j <= |reps|
    ensures MultiCount(reps[..i]) <= MultiCount(reps[..j])
    ensures i < j && |reps[i].members| > 1 ==> MultiCount(reps[..i]) < MultiCount(reps[..j])
    decreases j
  {
    if i < j {
      assert reps[..j][..j - 1] == reps[..j - 1];
      MultiCountGrows(reps, i, j - 1);
    }
  }

  /** The numbers 1 .. m. */
  function OneTo(m: nat): (r: set<int>)
    ensures forall g :: g in r <==> 1 <= g <= m
  {
    if m == 0 then {} else OneTo(m - 1) + {m}
  }

  /** Group numbers strictly increase in the creation order of the
      multi-member representatives. */
  lemma GroupNumbersIncrease<F>(reps: seq<Rep<F>>)
    ensures forall i, j :: 0 <= i < j < |reps| && |reps[i].members| > 1 ==> GroupNumber(reps, i) < GroupNumber(reps, j)
  {
    forall i, j | 0 <= i < j < |reps| && |reps[i].members| > 1
      ensures GroupNumber(reps, i) < GroupNumber(reps, j)
    {
      MultiCountGrows(reps, i, j);
    }
  }

  /** Every multi-member representative gets a number in 1 .. MultiCount(reps),
      and every number in that range is given to one: dense, starting at 1. */
  lemma GroupNumbersDense<F>(reps: seq<Rep<F>>)
    ensures forall i :: 0 <= i < |reps| && |reps[i].members| > 1 ==> 1 <= GroupNumber(reps, i) <= MultiCount(reps)
    ensures forall g :: g in OneTo(MultiCount(reps)) ==>
      exists i :: 0 <= i < |reps| && |reps[i].members| > 1 && GroupNumber(reps, i) == g
  {
    GroupNumbersBounded(reps);
    GroupNumbersOnto(reps);
  }

  lemma GroupNumbersBounded<F>(reps: seq<Rep<F>>)
    ensures forall i :: 0 <= i < |reps| && |reps[i].members| > 1 ==> 1 <= GroupNumber(reps, i) <= MultiCount(reps)
  {
    forall i | 0 <= i < |reps| && |reps[i].members| > 1
      ensures GroupNumber(reps, i) <= MultiCount(reps)
    {
      MultiCountGrows(reps, i, |reps|);
      assert reps[..|reps|] == reps;
    }
  }

  lemma {:induction false} GroupNumbersOnto<F>(reps: seq<Rep<F>>)
    ensures forall g :: g in OneTo(MultiCount(reps)) ==>
      exists i :: 0 <= i < |reps| && |reps[i].members| > 1 && GroupNumber(reps, i) == g
    decreases |reps|
  {
    if reps != [] {
      var n := |reps| - 1;
      var init := reps[..n];
      GroupNumbersOnto(init);
      forall g | g in OneTo(MultiCount(reps))
        ensures exists i :: 0 <= i < |reps| && |reps[i].members| > 1 && GroupNumber(reps, i) == g
      {
        if g in OneTo(MultiCount(init)) {
          var i :| 0 <= i < |init| && |init[i].members| > 1 && GroupNumber(init, i) == g;
          assert init[..i] == reps[..i];
          assert GroupNumber(reps, i) == g;
        } else {
          assert GroupNumber(reps, n) == g;
        }
      }
    }
  }
}
