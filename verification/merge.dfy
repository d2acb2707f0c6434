/** The bucket pair merger and the bucket differ: a two-pointer walk over the
    two sorted bucket file listings, diffing the buckets present on both sides
    and taking a bucket present on one side only wholesale. */
module Merge {
  import Lex

  /** A bucket directory: file name to the hashes written to that file. */
  type BucketDir = map<string, seq<int>>

  /** `read_gzip_file_lines_into_int_set`: a bucket file's hashes as a set,
      so duplicates collapse. */
  function ReadBucket(contents: seq<int>): (s: set<int>)
    ensures forall h :: h in s <==> h in contents
    ensures |s| <= |contents|
  {
    if contents == [] then {}
    else
      var last := contents[|contents| - 1];
      var rest := ReadBucket(contents[..|contents| - 1]);
      assert contents == contents[..|contents| - 1] + [last];
      rest + {last}
  }

  /** A hash written twice to a bucket reads back as if written once. */
  lemma {:induction false} ReadBucketDuplicate(contents: seq<int>, h: int)
    requires h in contents
    ensures ReadBucket(contents + [h]) == ReadBucket(contents)
  {
  }

  /** `diff_two_bucket_files`: the hashes only in the first bucket and those
      only in the second. */
  function DiffTwoBuckets(bucket1: seq<int>, bucket2: seq<int>): (r: (set<int>, set<int>))
    ensures forall h :: h in r.0 <==> h in bucket1 && h !in bucket2
    ensures forall h :: h in r.1 <==> h in bucket2 && h !in bucket1
    ensures r.0 !! r.1
  {
    (ReadBucket(bucket1) - ReadBucket(bucket2), ReadBucket(bucket2) - ReadBucket(bucket1))
  }

  /** What the merge promises for one side: `h` sits in some bucket of `mine`
      and not in the bucket of the same name of `theirs`, if there is one. */
  ghost predicate OnlyOn(h: int, mine: BucketDir, theirs: BucketDir)
  {
    exists k :: k in mine && h in mine[k] && (k !in theirs || h !in theirs[k])
  }

  /** The contribution of bucket `k` of `mine` to its side's result (none
      when `mine` has no such bucket). */
  function Contribution(k: string, mine: BucketDir, theirs: BucketDir): set<int>
  {
    if k !in mine then {}
    else if k in theirs then ReadBucket(mine[k]) - ReadBucket(theirs[k])
    else ReadBucket(mine[k])
  }

  /** The union of the contributions of the buckets listed in `ks`. */
  function Accumulated(ks: seq<string>, mine: BucketDir, theirs: BucketDir): set<int>
    decreases |ks|
  {
    if ks == [] then {}
    else Accumulated(ks[..|ks| - 1], mine, theirs) + Contribution(ks[|ks| - 1], mine, theirs)
  }

  lemma {:induction false} AccumulatedMembership(ks: seq<string>, mine: BucketDir, theirs: BucketDir, h: int)
    requires forall i :: 0 <= i < |ks| ==> ks[i] in mine
    ensures h in Accumulated(ks, mine, theirs) <==>
      exists i :: 0 <= i < |ks| && h in mine[ks[i]] && (ks[i] !in theirs || h !in theirs[ks[i]])
    decreases |ks|
  {
    if ks != [] {
      var pre := ks[..|ks| - 1];
      AccumulatedMembership(pre, mine, theirs, h);
      if h in Accumulated(ks, mine, theirs) {
        if h !in Accumulated(pre, mine, theirs) {
          var i := |ks| - 1;
          assert h in mine[ks[i]] && (ks[i] !in theirs || h !in theirs[ks[i]]);
        } else {
          var i :| 0 <= i < |pre| && h in mine[pre[i]] && (pre[i] !in theirs || h !in theirs[pre[i]]);
          assert ks[i] == pre[i];
        }
      } else {
        forall i | 0 <= i < |ks|
          ensures !(h in mine[ks[i]] && (ks[i] !in theirs || h !in theirs[ks[i]]))
        {
          if i < |pre| {
            assert ks[i] == pre[i];
          }
        }
      }
    }
  }

  /** Accumulating over a listing of every bucket gives the merge's promise. */
  lemma AccumulatedAll(names: seq<string>, mine: BucketDir, theirs: BucketDir)
    requires forall k :: k in names <==> k in mine
    ensures forall h :: h in Accumulated(names, mine, theirs) <==> OnlyOn(h, mine, theirs)
  {
    forall h
      ensures h in Accumulated(names, mine, theirs) <==> OnlyOn(h, mine, theirs)
    {
      AccumulatedMembership(names, mine, theirs, h);
      if OnlyOn(h, mine, theirs) {
        var k :| k in mine && h in mine[k] && (k !in theirs || h !in theirs[k]);
        var i :| 0 <= i < |names| && names[i] == k;
      }
    }
  }

  lemma AccumulatedStep(ks: seq<string>, i: int, mine: BucketDir, theirs: BucketDir)
    requires 0 <= i < |ks|
    ensures Accumulated(ks[..i + 1], mine, theirs) == Accumulated(ks[..i], mine, theirs) + Contribution(ks[i], mine, theirs)
  {
    assert ks[..i + 1][..i] == ks[..i];
  }

  lemma PrefixStep(names: seq<string>, i: int)
    requires 0 <= i < |names|
    ensures names[..i + 1] == names[..i] + [names[i]]
  {
  }

  /** The smallest name of a non-empty set of names. */
  method Minimum(names: set<string>) returns (m: string)
    requires names != {}
    ensures m in names
    ensures forall k :: k in names && k != m ==> Lex.Less(m, k)
  {
    m :| m in names;
    var todo := names - {m};
    while todo != {}
      invariant todo <= names && m in names && m !in todo
      invariant forall k :: k in names && k !in todo && k != m ==> Lex.Less(m, k)
      decreases todo
    {
      var x :| x in todo;
      if Lex.Less(x, m) {
        forall k | k in names && k !in todo && k != x
          ensures Lex.Less(x, k)
        {
          if k != m {
            Lex.Transitive(x, m, k);
          }
        }
        m := x;
      } else {
        Lex.Total(x, m);
      }
      todo := todo - {x};
    }
  }

  /** `os.listdir` followed by `list.sort()`: the directory's file names in
      increasing string order. */
  method SortedListing(dir: BucketDir) returns (names: seq<string>)
    ensures Lex.StrictlySorted(names)
    ensures forall k :: k in names <==> k in dir
  {
    names := [];
    var rest := dir.Keys;
    while rest != {}
      invariant rest <= dir.Keys
      invariant forall k :: k in names <==> k in dir && k !in rest
      invariant Lex.StrictlySorted(names)
      invariant forall i, k :: 0 <= i < |names| && k in rest ==> Lex.Less(names[i], k)
      decreases rest
    {
      var m := Minimum(rest);
      names := names + [m];
      rest := rest - {m};
    }
  }

  /** No name among the first `i` of `names1` is still ahead in `names2` from `j` on. */
  predicate Passed(names1: seq<string>, i: int, names2: seq<string>, j: int)
    requires 0 <= i <= |names1| && 0 <= j <= |names2|
  {
    forall x, y :: 0 <= x < i && j <= y < |names2| ==> names1[x] != names2[y]
  }

  /** Consuming `names1[i]` keeps `Passed` when that name is not ahead in `names2`. */
  lemma PassOne(names1: seq<string>, i: int, names2: seq<string>, j: int, j': int)
    requires 0 <= i < |names1| && 0 <= j <= j' <= |names2|
    requires Passed(names1, i, names2, j)
    requires forall y :: j' <= y < |names2| ==> names1[i] != names2[y]
    ensures Passed(names1, i + 1, names2, j')
  {
  }

  /** The tail loops of `diff_all_buckets`: once the other listing is used
      up, each remaining bucket from `i` on is read and goes wholly to this
      side. `read` logs the bucket files read on this side. */
  method DrainRemaining(names: seq<string>, i: int, mine: BucketDir, theirs: BucketDir,
                        acc: set<int>, read: seq<string>)
    returns (result: set<int>, read': seq<string>)
    requires 0 <= i <= |names|
    requires forall x :: 0 <= x < |names| ==> names[x] in mine
    requires forall x :: i <= x < |names| ==> names[x] !in theirs
    requires acc == Accumulated(names[..i], mine, theirs) && read == names[..i]
    ensures result == Accumulated(names, mine, theirs)
    ensures read' == names
  {
    result, read' := acc, read;
    var x := i;
    while x < |names|
      invariant i <= x <= |names|
      invariant result == Accumulated(names[..x], mine, theirs)
      invariant read' == names[..x]
    {
      DrainStep(names, x, mine, theirs, result, read');
      result := result + ReadBucket(mine[names[x]]);
      read' := read' + [names[x]];
      x := x + 1;
    }
    assert names[..x] == names;
  }

  /** Reading one more bucket that has no partner extends both the result
      and the log by that bucket. */
  lemma DrainStep(names: seq<string>, x: int, mine: BucketDir, theirs: BucketDir,
                  result: set<int>, read: seq<string>)
    requires 0 <= x < |names| && names[x] in mine && names[x] !in theirs
    requires result == Accumulated(names[..x], mine, theirs) && read == names[..x]
    ensures result + ReadBucket(mine[names[x]]) == Accumulated(names[..x + 1], mine, theirs)
    ensures read + [names[x]] == names[..x + 1]
  {
    AccumulatedStep(names, x, mine, theirs);
    PrefixStep(names, x);
  }

  /** The state of the merge loop: the two positions, the two results so
      far, and the bucket files read so far on each side. */
  datatype MergeState = MergeState(i: int, j: int, left: set<int>, right: set<int>,
                                   read1: seq<string>, read2: seq<string>)

  /** The invariant of the merge loop: each side has read exactly the
      buckets before its position, its result accumulates them, and no
      consumed name is still ahead on the other side. */
  predicate Merged(names1: seq<string>, names2: seq<string>, dir1: BucketDir, dir2: BucketDir, s: MergeState)
  {
    0 <= s.i <= |names1| && 0 <= s.j <= |names2|
    && s.left == Accumulated(names1[..s.i], dir1, dir2)
    && s.right == Accumulated(names2[..s.j], dir2, dir1)
    && s.read1 == names1[..s.i] && s.read2 == names2[..s.j]
    && Passed(names1, s.i, names2, s.j) && Passed(names2, s.j, names1, s.i)
  }

  /** One round of the merge loop: equal names are diffed as a pair,
      otherwise the smaller name's bucket goes wholly to its side. */
  method MergeStep(names1: seq<string>, names2: seq<string>, dir1: BucketDir, dir2: BucketDir, s: MergeState)
    returns (t: MergeState)
    requires Lex.StrictlySorted(names1) && Lex.StrictlySorted(names2)
    requires forall k :: k in names1 <==> k in dir1
    requires forall k :: k in names2 <==> k in dir2
    requires Merged(names1, names2, dir1, dir2, s)
    requires s.i < |names1| && s.j < |names2|
    ensures Merged(names1, names2, dir1, dir2, t)
    ensures s.i <= t.i && s.j <= t.j && s.i + s.j < t.i + t.j
  {
    var i, j := s.i, s.j;
    var k1, k2 := names1[i], names2[j];
    AccumulatedStep(names1, i, dir1, dir2);
    AccumulatedStep(names2, j, dir2, dir1);
    PrefixStep(names1, i);
    PrefixStep(names2, j);
    if k1 == k2 {
      var d := DiffTwoBuckets(dir1[k1], dir2[k2]);
      assert d.0 == Contribution(k1, dir1, dir2) && d.1 == Contribution(k2, dir2, dir1);
      if i + 1 < |names1| {
        Lex.NotInSortedSuffix(k2, names1, i + 1);
      }
      if j + 1 < |names2| {
        Lex.NotInSortedSuffix(k1, names2, j + 1);
      }
      PassOne(names1, i, names2, j, j + 1);
      PassOne(names2, j, names1, i, i + 1);
      t := MergeState(i + 1, j + 1, s.left + d.0, s.right + d.1, s.read1 + [k1], s.read2 + [k2]);
    } else if Lex.Less(k1, k2) {
      Lex.NotInSortedSuffix(k1, names2, j);
      PassOne(names1, i, names2, j, j);
      assert Contribution(k1, dir1, dir2) == ReadBucket(dir1[k1]);
      t := s.(i := i + 1, left := s.left + ReadBucket(dir1[k1]), read1 := s.read1 + [k1]);
    } else {
      Lex.Total(k1, k2);
      Lex.NotInSortedSuffix(k2, names1, i);
      PassOne(names2, j, names1, i, i);
      assert Contribution(k2, dir2, dir1) == ReadBucket(dir2[k2]);
      t := s.(j := j + 1, right := s.right + ReadBucket(dir2[k2]), read2 := s.read2 + [k2]);
    }
  }

  /** `diff_all_buckets`: the two-pointer merge over the sorted listings of
      the two bucket directories. Every bucket file of each side is read
      exactly once, in listing order. A hash lands in the left result
      exactly when some left bucket holds it and the right bucket of the
      same name (if any) does not, and symmetrically on the right. */
  method DiffAllBuckets(names1: seq<string>, names2: seq<string>, dir1: BucketDir, dir2: BucketDir)
    returns (left: set<int>, right: set<int>, read1: seq<string>, read2: seq<string>)
    requires Lex.StrictlySorted(names1) && Lex.StrictlySorted(names2)
    requires forall k :: k in names1 <==> k in dir1
    requires forall k :: k in names2 <==> k in dir2
    ensures forall h :: h in left <==> OnlyOn(h, dir1, dir2)
    ensures forall h :: h in right <==> OnlyOn(h, dir2, dir1)
    ensures read1 == names1 && read2 == names2
  {
    var s := MergeState(0, 0, {}, {}, [], []);
    while s.i < |names1| && s.j < |names2|
      invariant Merged(names1, names2, dir1, dir2, s)
      decreases |names1| - s.i + |names2| - s.j
    {
      s := MergeStep(names1, names2, dir1, dir2, s);
    }
    left, read1 := DrainRemaining(names1, s.i, dir1, dir2, s.left, s.read1);
    right, read2 := DrainRemaining(names2, s.j, dir2, dir1, s.right, s.read2);
    AccumulatedAll(names1, dir1, dir2);
    AccumulatedAll(names2, dir2, dir1);
  }
}
