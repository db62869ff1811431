/** The record shapes shared by the listing, the status engine, the priority
    resolver and the single-record update. */
module Records {

  datatype Option<+T> = None | Some(value: T)

  /** One row of the file table, in column order: File Name, Directory Path,
      File Path, File Size (bytes), Last Modified, Duplicate Group, Delete.
      `None` in the size or modified cell stands for the "N/A" text. */
  datatype Row = Row(
    name: string,
    directory: string,
    path: string,
    size: Option<nat>,
    modified: Option<string>,
    group: Option<int>,
    delete: string)

  /** Python truthiness of the Duplicate Group cell: present and non-zero. */
  predicate HasGroup(r: Row) {
    r.group.Some? && r.group.value != 0
  }

  /** The File Path column of a table. */
  function RowPaths(rows: seq<Row>): (ps: seq<string>)
    ensures |ps| == |rows|
    ensures forall i :: 0 <= i < |rows| ==> ps[i] == rows[i].path
  {
    seq(|rows|, i requires 0 <= i < |rows| => rows[i].path)
  }

  predicate Distinct<T(==)>(s: seq<T>) {
    forall i, j :: 0 <= i < j < |s| ==> s[i] != s[j]
  }

  /** In a sequence without repetitions every element occurs at most once. */
  lemma {:induction false} DistinctCountsAtMostOne<T>(s: seq<T>, x: T)
    requires Distinct(s)
    ensures multiset(s)[x] <= 1
    ensures x in s ==> multiset(s)[x] == 1
  {
    if s != [] {
      var n := |s| - 1;
      assert s == s[..n] + [s[n]];
      assert s[n] !in s[..n];
      DistinctCountsAtMostOne(s[..n], x);
    }
  }

  /** Whatever is no more frequent than in a repetition-free sequence is itself repetition-free. */
  lemma DistinctSubMultiset<T>(s: seq<T>, t: seq<T>)
    requires Distinct(s) && multiset(t) <= multiset(s)
    ensures Distinct(t)
  {
    forall i, j | 0 <= i < j < |t|
      ensures t[i] != t[j]
    {
      if t[i] == t[j] {
        var x := t[i];
        assert t == t[..j] + [t[j]] + t[j + 1..];
        assert x in t[..j];
        assert multiset(t)[x] >= 2;
        DistinctCountsAtMostOne(s, x);
        assert false;
      }
    }
  }

  /** A repetition-free sequence whose elements all occur in `s` is no more frequent than `s`. */
  lemma DistinctWithin<T>(t: seq<T>, s: seq<T>)
    requires Distinct(t) && forall x :: x in t ==> x in s
    ensures multiset(t) <= multiset(s)
  {
    forall x
      ensures multiset(t)[x] <= multiset(s)[x]
    {
      DistinctCountsAtMostOne(t, x);
      if x in t {
        assert x in multiset(s);
      }
    }
  }

  /** Appending an element not yet present keeps a sequence repetition-free. */
  lemma DistinctSnoc<T>(s: seq<T>, x: T)
    requires Distinct(s) && x !in s
    ensures Distinct(s + [x])
  {
    var t := s + [x];
    forall i, j | 0 <= i < j < |t|
      ensures t[i] != t[j]
    {
      if j == |s| {
        assert t[i] == s[i];
      } else {
        assert t[i] == s[i] && t[j] == s[j];
      }
    }
  }

  lemma RowPathsConcat(a: seq<Row>, b: seq<Row>)
    ensures RowPaths(a + b) == RowPaths(a) + RowPaths(b)
    ensures multiset(RowPaths(a + b)) == multiset(RowPaths(a)) + multiset(RowPaths(b))
  {
    assert RowPaths(a + b) == RowPaths(a) + RowPaths(b);
  }

  lemma SubMultisetConcat<T>(a: seq<T>, b: seq<T>, c: seq<T>, d: seq<T>)
    requires multiset(a) <= multiset(c) && multiset(b) <= multiset(d)
    ensures multiset(a + b) <= multiset(c + d)
  {
    assert multiset(a + b) == multiset(a) + multiset(b);
    assert multiset(c + d) == multiset(c) + multiset(d);
  }

  /** A sub-multiset of a repetition-free sequence that reaches every element is all of it. */
  lemma DistinctSqueeze<T>(w: seq<T>, h: seq<T>)
    requires multiset(w) <= multiset(h) && Distinct(h)
    requires forall x :: x in h ==> x in w
    ensures multiset(w) == multiset(h)
  {
    forall x
      ensures multiset(w)[x] == multiset(h)[x]
    {
      DistinctCountsAtMostOne(h, x);
      if x in h {
        assert x in multiset(w);
      }
    }
  }

  lemma WithinDistinct<T>(w: seq<T>, h: seq<T>)
    requires multiset(w) <= multiset(h) && Distinct(h)
    ensures Distinct(w) && forall x :: x in w ==> x in h
  {
    DistinctSubMultiset(h, w);
    forall x | x in w
      ensures x in h
    {
      assert x in multiset(w);
    }
  }
}
