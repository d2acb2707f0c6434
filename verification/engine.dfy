/** The whole run: resolve the two inputs, bucketize both, merge the bucket
    directories into the two hash diffs, recover the lines behind those
    hashes and write the two diff files. */
module Engine {
  import opened Outcome
  import opened Inputs
  import opened Partition
  import opened Merge
  import opened Recovery
  import opened Output

  /** The two diff files: "diff-left" and "diff-right". */
  datatype DiffFiles = DiffFiles(left: string, right: string)

  /** Reference result for one side: the non-empty lines of `mine` whose
      hash is not the hash of any line of `theirs`. */
  function OneSidedDiff(hash: string -> int, mine: seq<string>, theirs: seq<string>): set<string>
  {
    set l | l in mine && l != "" && hash(l) !in Hashes(hash, theirs)
  }

  /** The non-empty lines of `mine` that are not lines of `theirs`. */
  function LineDiff(mine: seq<string>, theirs: seq<string>): set<string>
  {
    set l | l in mine && l !in theirs && l != ""
  }

  /** The hash is one-to-one on the lines of both files. */
  ghost predicate InjectiveOn(hash: string -> int, lines: seq<string>)
  {
    forall l1, l2 :: l1 in lines && l2 in lines && hash(l1) == hash(l2) ==> l1 == l2
  }

  /** Diffing bucket by bucket gives the global difference of the two hash
      sets, for every non-zero bucket count: both sides put a hash in the
      bucket file of the same name. */
  lemma BucketedDiffIsHashDiff(hash: string -> int, a: seq<string>, b: seq<string>, n: int)
    requires n != 0
    ensures forall h :: OnlyOn(h, BucketDirectory(hash, a, n), BucketDirectory(hash, b, n)) <==>
      h in Hashes(hash, a) && h !in Hashes(hash, b)
  {
    var dirA, dirB := BucketDirectory(hash, a, n), BucketDirectory(hash, b, n);
    forall h
      ensures OnlyOn(h, dirA, dirB) <==> h in Hashes(hash, a) && h !in Hashes(hash, b)
    {
      var k := BucketFileName(BucketNumber(h, n), n);
      if OnlyOn(h, dirA, dirB) {
        var k' :| k' in dirA && h in dirA[k'] && (k' !in dirB || h !in dirB[k']);
        assert k' == k;
      }
      if h in Hashes(hash, a) && h !in Hashes(hash, b) {
        assert k in dirA && h in dirA[k];
      }
    }
  }

  /** Bucketizing both files and merging the bucket directories: the
      hashes found only on the left and only on the right. */
  method DiffHashes(lines1: seq<string>, lines2: seq<string>, n: int, hash: string -> int)
    returns (hashedLeft: set<int>, hashedRight: set<int>)
    requires n != 0
    ensures forall h :: h in hashedLeft <==> h in Hashes(hash, lines1) && h !in Hashes(hash, lines2)
    ensures forall h :: h in hashedRight <==> h in Hashes(hash, lines2) && h !in Hashes(hash, lines1)
  {
    var dir1 := BucketDirectory(hash, lines1, n);
    var dir2 := BucketDirectory(hash, lines2, n);
    var names1 := SortedListing(dir1);
    var names2 := SortedListing(dir2);
    var read1, read2;
    hashedLeft, hashedRight, read1, read2 := DiffAllBuckets(names1, names2, dir1, dir2);
    BucketedDiffIsHashDiff(hash, lines1, lines2, n);
    BucketedDiffIsHashDiff(hash, lines2, lines1, n);
  }

  /** The lines of `mine` whose hash is among `mine`'s hashes but not
      `theirs`' are those whose hash is not among `theirs`'. */
  lemma RecoveredIsOneSided(hash: string -> int, mine: seq<string>, theirs: seq<string>,
                            hashed: set<int>, recovered: set<string>)
    requires forall h :: h in hashed <==> h in Hashes(hash, mine) && h !in Hashes(hash, theirs)
    requires forall l :: l in recovered <==> l in mine && hash(l) in hashed
    ensures forall l :: l in recovered && l != "" <==> l in OneSidedDiff(hash, mine, theirs)
  {
    forall l
      ensures l in recovered && l != "" <==> l in OneSidedDiff(hash, mine, theirs)
    {
      if l in mine {
        var h := hash(l);
        assert h in Hashes(hash, mine);
        assert h in hashed <==> h !in Hashes(hash, theirs);
        assert l in recovered <==> h in hashed;
      }
    }
  }

  /** The pipeline of `bigdiff` between resolving the inputs and writing the
      output directory, for a non-zero bucket count. */
  method DiffLines(lines1: seq<string>, lines2: seq<string>, n: int, hash: string -> int)
    returns (files: DiffFiles)
    requires n != 0
    requires forall i :: 0 <= i < |lines1| ==> '\n' !in lines1[i]
    requires forall i :: 0 <= i < |lines2| ==> '\n' !in lines2[i]
    ensures forall l :: l in ReadLines(files.left) <==> l in OneSidedDiff(hash, lines1, lines2)
    ensures forall l :: l in ReadLines(files.right) <==> l in OneSidedDiff(hash, lines2, lines1)
  {
    var hashedLeft, hashedRight := DiffHashes(lines1, lines2, n, hash);
    var left := ExtractOriginalLines(hashedLeft, hash, lines1);
    var right := ExtractOriginalLines(hashedRight, hash, lines2);
    RecoveredIsOneSided(hash, lines1, lines2, hashedLeft, left);
    RecoveredIsOneSided(hash, lines2, lines1, hashedRight, right);
    var leftFile := WriteDiffFile(left);
    var rightFile := WriteDiffFile(right);
    files := DiffFiles(leftFile, rightFile);
  }

  /** `bigdiff`: the diff files of a run over the given input directory,
      or the error that stops it. The files read back as the reference
      one-sided diffs, whatever the (non-zero) bucket count. */
  method BigDiff(entries: seq<Entry>, n: int, hash: string -> int) returns (r: Result<DiffFiles>)
    ensures ResolveInputs(entries).Failure? ==> r == Failure(ResolveInputs(entries).error)
    ensures ResolveInputs(entries).Success? ==>
      var lines1 := ReadLines(ResolveInputs(entries).value.0.content);
      var lines2 := ReadLines(ResolveInputs(entries).value.1.content);
      && (r.Failure? <==> n == 0 && (lines1 != [] || lines2 != []))
      && (r.Failure? ==> r.error == ZeroDivision)
      && (r.Success? ==> forall l :: l in ReadLines(r.value.left) <==> l in OneSidedDiff(hash, lines1, lines2))
      && (r.Success? ==> forall l :: l in ReadLines(r.value.right) <==> l in OneSidedDiff(hash, lines2, lines1))
  {
    var resolved := ResolveInputs(entries);
    if resolved.Failure? {
      return Failure(resolved.error);
    }
    var lines1 := ReadLines(resolved.value.0.content);
    var lines2 := ReadLines(resolved.value.1.content);
    if n == 0 {
      if lines1 != [] || lines2 != [] {
        return Failure(ZeroDivision);
      }
      // No line is hashed, so both bucket directories stay empty and so do
      // both diffs.
      var emptyLeft := WriteDiffFile({});
      var emptyRight := WriteDiffFile({});
      return Success(DiffFiles(emptyLeft, emptyRight));
    }
    var files := DiffLines(lines1, lines2, n, hash);
    r := Success(files);
  }

  /** A reported line is really missing from the other file, whatever the
      hash: a line of `theirs` always has its own hash among theirs. */
  lemma DiffIsWithinLineDifference(hash: string -> int, mine: seq<string>, theirs: seq<string>)
    ensures OneSidedDiff(hash, mine, theirs) <= LineDiff(mine, theirs)
  {
  }

  /** Without collisions the diff is exactly the non-empty lines of one file
      that are missing from the other. */
  lemma InjectiveHashGivesLineDifference(hash: string -> int, mine: seq<string>, theirs: seq<string>)
    requires InjectiveOn(hash, mine + theirs)
    ensures OneSidedDiff(hash, mine, theirs) == LineDiff(mine, theirs)
  {
  }

  /** A file diffed with itself gives nothing, duplicates or not. */
  lemma SelfDiffIsEmpty(hash: string -> int, lines: seq<string>)
    ensures OneSidedDiff(hash, lines, lines) == {}
  {
  }

  /** Against an empty file every non-empty line is reported. */
  lemma EmptyOtherSide(hash: string -> int, lines: seq<string>)
    ensures OneSidedDiff(hash, lines, []) == LineDiff(lines, [])
    ensures OneSidedDiff(hash, [], lines) == {}
  {
  }

  /** A hash without collisions on the strings of at most one character,
      which is all the integration vectors below use. */
  function FirstCharHash(s: string): int
  {
    if s == "" then 0 else 1 + s[0] as int
  }

  lemma FirstCharHashInjective(lines: seq<string>)
    requires forall l :: l in lines ==> |l| <= 1
    ensures InjectiveOn(FirstCharHash, lines)
  {
    forall l1, l2 | l1 in lines && l2 in lines && FirstCharHash(l1) == FirstCharHash(l2)
      ensures l1 == l2
    {
      if l1 != "" && l2 != "" {
        assert l1 == [l1[0]] && l2 == [l2[0]];
      }
    }
  }

  /** Both one-sided diffs under the collision-free hash. */
  function VectorDiff(a: seq<string>, b: seq<string>): (set<string>, set<string>)
  {
    (OneSidedDiff(FirstCharHash, a, b), OneSidedDiff(FirstCharHash, b, a))
  }

  /** Both one-sided diffs are the line differences when no line has more
      than one character. */
  lemma VectorDiffIsLineDifference(a: seq<string>, b: seq<string>)
    requires forall l :: l in a + b ==> |l| <= 1
    ensures VectorDiff(a, b) == (LineDiff(a, b), LineDiff(b, a))
  {
    FirstCharHashInjective(a + b);
    FirstCharHashInjective(b + a);
    InjectiveHashGivesLineDifference(FirstCharHash, a, b);
    InjectiveHashGivesLineDifference(FirstCharHash, b, a);
  }

  /** Distinct one-character lines of the integration test. */
  lemma DistinctLetters()
    ensures "a" != "b" && "a" != "c" && "a" != "d" && "a" != "x" && "a" != "y"
    ensures "b" != "c" && "b" != "d" && "b" != "x" && "b" != "y"
    ensures "c" != "d" && "c" != "x" && "c" != "y"
    ensures "d" != "x" && "d" != "y" && "x" != "y"
  {
    assert "a"[0] != "b"[0] && "a"[0] != "c"[0] && "a"[0] != "d"[0] && "a"[0] != "x"[0] && "a"[0] != "y"[0];
    assert "b"[0] != "c"[0] && "b"[0] != "d"[0] && "b"[0] != "x"[0] && "b"[0] != "y"[0];
    assert "c"[0] != "d"[0] && "c"[0] != "x"[0] && "c"[0] != "y"[0];
    assert "d"[0] != "x"[0] && "d"[0] != "y"[0] && "x"[0] != "y"[0];
  }

  /** Integration cases with an empty line on one side. */
  lemma EmptyLineVectors()
    ensures VectorDiff([""], [""]) == ({}, {})
    ensures VectorDiff([""], ["a"]) == ({}, {"a"})
    ensures VectorDiff(["a", "b", "c"], [""]) == ({"a", "b", "c"}, {})
  {
    DistinctLetters();
    VectorDiffIsLineDifference([""], [""]);
    assert LineDiff([""], [""]) == {};
    VectorDiffIsLineDifference([""], ["a"]);
    assert LineDiff([""], ["a"]) == {};
    assert LineDiff(["a"], [""]) == {"a"};
    VectorDiffIsLineDifference(["a", "b", "c"], [""]);
    assert LineDiff(["a", "b", "c"], [""]) == {"a", "b", "c"};
    assert LineDiff([""], ["a", "b", "c"]) == {};
  }

  /** Integration cases where one file's lines are contained in the other's. */
  lemma SubsetVectors()
    ensures VectorDiff(["a", "b", "c"], ["a", "b", "c"]) == ({}, {})
    ensures VectorDiff(["a"], ["a", "b", "c"]) == ({}, {"b", "c"})
    ensures VectorDiff(["a", "b", "c", "d"], ["a", "b", "c"]) == ({"d"}, {})
  {
    DistinctLetters();
    VectorDiffIsLineDifference(["a", "b", "c"], ["a", "b", "c"]);
    assert LineDiff(["a", "b", "c"], ["a", "b", "c"]) == {};
    VectorDiffIsLineDifference(["a"], ["a", "b", "c"]);
    assert LineDiff(["a"], ["a", "b", "c"]) == {};
    assert LineDiff(["a", "b", "c"], ["a"]) == {"b", "c"};
    VectorDiffIsLineDifference(["a", "b", "c", "d"], ["a", "b", "c"]);
    assert LineDiff(["a", "b", "c", "d"], ["a", "b", "c"]) == {"d"};
    assert LineDiff(["a", "b", "c"], ["a", "b", "c", "d"]) == {};
  }

  /** Integration cases where both files have lines of their own. */
  lemma ChangedVectors()
    ensures VectorDiff(["a", "b", "c", "x"], ["a", "b", "c", "d"]) == ({"x"}, {"d"})
    ensures VectorDiff(["a", "b", "c", "x", "y"], ["a", "b", "c", "d"]) == ({"x", "y"}, {"d"})
  {
    DistinctLetters();
    VectorDiffIsLineDifference(["a", "b", "c", "x"], ["a", "b", "c", "d"]);
    assert LineDiff(["a", "b", "c", "x"], ["a", "b", "c", "d"]) == {"x"};
    assert LineDiff(["a", "b", "c", "d"], ["a", "b", "c", "x"]) == {"d"};
    VectorDiffIsLineDifference(["a", "b", "c", "x", "y"], ["a", "b", "c", "d"]);
    assert LineDiff(["a", "b", "c", "x", "y"], ["a", "b", "c", "d"]) == {"x", "y"};
    assert LineDiff(["a", "b", "c", "d"], ["a", "b", "c", "x", "y"]) == {"d"};
  }

  /** Integration cases with duplicate lines: duplicates are reported once. */
  lemma DuplicateVectors()
    ensures VectorDiff(["a", "b", "c", "a"], ["a", "b", "c"]) == ({}, {})
    ensures VectorDiff(["a", "b", "c", "a"], ["b", "c", "c", "c", "c"]) == ({"a"}, {})
    ensures VectorDiff(["a", "b", "a"], ["b", "c", "c", "c", "c"]) == ({"a"}, {"c"})
  {
    DistinctLetters();
    VectorDiffIsLineDifference(["a", "b", "c", "a"], ["a", "b", "c"]);
    assert LineDiff(["a", "b", "c", "a"], ["a", "b", "c"]) == {};
    assert LineDiff(["a", "b", "c"], ["a", "b", "c", "a"]) == {};
    VectorDiffIsLineDifference(["a", "b", "c", "a"], ["b", "c", "c", "c", "c"]);
    assert LineDiff(["a", "b", "c", "a"], ["b", "c", "c", "c", "c"]) == {"a"};
    assert LineDiff(["b", "c", "c", "c", "c"], ["a", "b", "c", "a"]) == {};
    VectorDiffIsLineDifference(["a", "b", "a"], ["b", "c", "c", "c", "c"]);
    assert LineDiff(["a", "b", "a"], ["b", "c", "c", "c", "c"]) == {"a"};
    assert LineDiff(["b", "c", "c", "c", "c"], ["a", "b", "a"]) == {"c"};
  }
}
