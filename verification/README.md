# bigdiff in Dafny

A model of the bounded-memory set-difference engine of `bigdiff`. It takes two
large line-oriented files and computes "diff-left" (lines only in the first
file) and "diff-right" (lines only in the second). It never holds a whole file
in memory:

1. The **input resolver** checks that the input directory holds exactly two
   regular files. The file with the smaller path is the left side.
2. The **partitioner** (`bucketize`) hashes every line and appends the hash to
   the file of bucket `hash % num_buckets`. Bucket files are named by the
   bucket number, zero-padded to the width of `str(num_buckets - 1)`, plus
   ".gz". A bucket file is created on the first write to its bucket.
3. The **bucket merger** (`diff_all_buckets`) walks the two sorted bucket
   listings with two pointers:
   - a bucket present on both sides is diffed as two hash sets
     (`diff_two_bucket_files`);
   - a bucket present on one side only goes wholly to that side.
4. **Line recovery** reads each original file again. It keeps the lines whose
   hash survived the merge.
5. The **output writer** joins the non-empty recovered lines with '\n'.

Files are modelled as text (`Inputs.Entry.content`), split into lines by
`Output.ReadLines`. Bucket directories are maps from file name to the hashes
written to that file (`Merge.BucketDir`). Directory listings are sorted
sequences of names. The hash function is a parameter `string -> int`, and the
same one is passed to partitioning and recovery. `Merge.DiffAllBuckets` also
returns the names of the bucket files it read on each side, in order. The
source keeps no such log. It is there so that the contract can say that each
bucket file is read exactly once.

Modules:
- `Lex`: Python's `<` on strings.
- `Decimal`: `str()` of integers and `'0' * k`.
- `Partition`: bucket numbers, bucket names, bucketize.
- `Merge`: bucket reads, bucket diff, sorted listing, two-pointer merge.
- `Recovery`: line recovery.
- `Inputs`: the input resolver.
- `Output`: the writer and its read-back.
- `Outcome`: errors and results.
- `Engine`: the whole run and its properties.

The central theorem is `Engine.BucketedDiffIsHashDiff`. For every non-zero
bucket count, the union of the per-bucket differences equals the difference
of the two files' whole hash sets. The reason: both sides put a hash `h` into
the file named after `h % n`. `Engine.BigDiff` then states the end-to-end
result. Read back, the left file holds exactly the non-empty lines of the left
input whose hash is not the hash of any right line, and symmetrically. This
result does not depend on the bucket count.

Details of the code that the model keeps, although a reader of the documentation might expect otherwise:
- The hash is signed (`mmh3.hash`). Python's `%` is floored, so the bucket
  number still lies in `[0, n)` for a positive `n`.
- The bucket count is not validated.
  - A zero count fails with `ZeroDivisionError`, but only once a line is
    hashed. Two empty inputs with zero buckets give two empty diffs.
  - A negative count gives bucket numbers in `(n, 0]`. Their names are still
    distinct, and the merge is still correct.
- Any entry count other than two is rejected, including one. An empty
  directory gets its own error.

## Model

| member | source | states |
|---|---|---|
| Partition.BucketNumber | bigdiff/application.py:25-26 | the bucket of hash `h` is Python's floored `h % n`: it lies in `[0, n)` for positive `n` and in `(n, 0]` for negative `n`, and it is congruent to `h` modulo `n`, also for negative hashes |
| Partition.PaddedIsFixedWidth | bigdiff/application.py:32-39 | for `0 <= b < n`, zero-padding `str(b)` gives `b` written in exactly `len(str(n - 1))` digits, so every padded name has that same length |
| Partition.BucketNameOrder | bigdiff/application.py:32-40 | for a positive bucket count, comparing two bucket file names as strings gives the same answer as comparing their bucket numbers |
| Partition.BucketFileNamesInjective | bigdiff/application.py:37-42 | two buckets in range with the same file name are the same bucket, for positive and for negative bucket counts |
| Partition.BucketNamingExamples | bigdiff/application.py:34-36 | with 457 buckets, bucket 9 is written to "009.gz"; floored `%` sends -7 mod 5 to 3 and 7 mod -5 to -3 |
| Partition.Bucket | bigdiff/application.py:94-102 | a hash is in bucket `b`'s contents exactly when it is the hash of an input line and its bucket number is `b` |
| Partition.Bucketize | bigdiff/application.py:84-104 | a bucket file exists exactly when some line hashes into that bucket, every bucket number is in range, and each file holds that bucket's hashes in input order, duplicates included |
| Partition.BucketPrefix | bigdiff/application.py:41-44 | the hashes a bucket holds after a prefix of the input are a prefix of the hashes it holds after the whole input |
| Partition.BucketFilesOnlyGrow | bigdiff/application.py:41-44 | a bucket's handle is opened only once: a file present after a prefix of the input is still present after the whole input, and its earlier contents are a prefix of its later contents |
| Partition.Directory | bigdiff/application.py:37-42 | the directory holds one file per opened bucket, named by its padded number, with that bucket's contents, and no other file |
| Partition.BucketDirectory | bigdiff/application.py:94-102 | every hash in a bucket file is the hash of an input line and belongs to the bucket the file is named after; every input line's hash is in its bucket's file; no bucket file is empty |
| Decimal.FixedWidth | bigdiff/application.py:37-39 | a number written in `w` digits is exactly `w` characters long and holds only decimal digits |
| Decimal.FixedWidthOrder | bigdiff/application.py:32-39 | decimal strings of equal width compare as strings exactly as their values compare as numbers |
| Decimal.FixedWidthPadding | bigdiff/application.py:37-39 | a `d`-digit number written in `w >= d` digits is its `d`-digit form preceded by `w - d` zeros |
| Decimal.StrInjective | bigdiff/application.py:37-39 | `str()` maps distinct non-negative integers to distinct strings |
| Lex.SameSuffix | bigdiff/application.py:40 | adding the ".gz" suffix to two padded names of equal length keeps their order |
| Merge.ReadBucket | bigdiff/application.py:107-109 | reading a bucket file gives the set of its hashes: membership is as in the file, and there are no more distinct hashes than lines |
| Merge.ReadBucketDuplicate | bigdiff/application.py:107-109 | a hash written to a bucket file a second time changes nothing in what the file reads back as |
| Merge.DiffTwoBuckets | bigdiff/application.py:112-119 | the left result holds the hashes of bucket 1 missing from bucket 2, the right result holds the converse, and the two results are disjoint |
| Merge.SortedListing | bigdiff/application.py:52-56 | the listing is strictly increasing in string order and contains exactly the directory's file names |
| Merge.MergeStep | bigdiff/application.py:127-149 | one round of the merge keeps its invariant: each side has read exactly the buckets before its position, its result is the contribution of those buckets, no consumed name is still ahead on the other side, and at least one position advances |
| Merge.DrainRemaining | bigdiff/application.py:150-159 | once the other listing is exhausted, each remaining bucket is read once, in order, and goes wholly to its own side's result |
| Merge.DiffAllBuckets | bigdiff/application.py:122-161 | for sorted listings of two bucket directories, every bucket file of each side is read exactly once, in listing order; a hash is in the left result exactly when some left bucket holds it and the right bucket of the same name is absent or lacks it, and symmetrically for the right result |
| Engine.BucketedDiffIsHashDiff | bigdiff/application.py:234-240 | after both files are bucketized with the same non-zero bucket count, a hash passes the per-bucket merge exactly when it is a left hash and not a right hash |
| Engine.DiffHashes | bigdiff/application.py:234-240 | bucketizing both files and merging the buckets yields the left-only and right-only hash sets of the two whole files |
| Recovery.ExtractOriginalLines | bigdiff/application.py:66-81 | the result is exactly the distinct lines of the file whose hash is a target; with no targets it is empty |
| Engine.RecoveredIsOneSided | bigdiff/application.py:246-249 | recovering with the same hash function turns the left-only hash set into the non-empty left lines whose hash is not a right hash |
| Output.Enumerate | bigdiff/application.py:215 | iterating over a set yields each of its elements exactly once, in some order |
| Output.NonEmpty | bigdiff/application.py:215 | `filter(None, ...)` keeps exactly the non-empty lines |
| Output.ReadLines | bigdiff/application.py:75-77 | no line read from a file contains '\n' |
| Output.ReadJoined | bigdiff/application.py:213-218 | reading back lines joined with '\n' returns them unchanged when they are non-empty and free of '\n' |
| Output.WriteDiffFile | bigdiff/application.py:204-219 | the written diff file reads back as exactly the non-empty lines of the diff set; an empty diff gives an empty file |
| Inputs.ResolveInputs | bigdiff/application.py:164-185 | an empty directory fails with its own error; any other entry count than two, or an entry that is not a file, fails with the two-files error; otherwise the result is the two entries, the one with the smaller path first |
| Engine.DiffLines | bigdiff/application.py:234-256 | for a non-zero bucket count, the two written diff files read back as the two reference one-sided diffs |
| Engine.BigDiff | bigdiff/application.py:222-257 | input errors are passed through; a zero bucket count fails exactly when some line must be hashed; otherwise the diff files read back as the reference one-sided diffs, whatever the bucket count |
| Engine.DiffIsWithinLineDifference | bigdiff/application.py:240-249 | whatever the hash, every reported left line occurs in the left file and not in the right file |
| Engine.InjectiveHashGivesLineDifference | bigdiff/application.py:240-249 | when the hash has no collisions on the two files, the left diff is exactly the non-empty left lines missing from the right file |
| Engine.SelfDiffIsEmpty | bigdiff/test/integration-test.py:116-117 | a file diffed against itself yields nothing, with or without duplicate lines |
| Engine.EmptyOtherSide | bigdiff/test/integration-test.py:111-115 | against an empty file, every non-empty line is reported, and nothing is reported from the empty side |
| Engine.VectorDiffIsLineDifference | bigdiff/test/integration-test.py:104-109 | under a collision-free hash, both diffs are the plain line differences |
| Engine.EmptyLineVectors | bigdiff/test/integration-test.py:111-115 | the integration cases with an empty line on one side: `['']` against `['']` gives nothing, `['']` against `['a']` gives `{'a'}` on the right, `['a','b','c']` against `['']` gives all three on the left |
| Engine.SubsetVectors | bigdiff/test/integration-test.py:116-121 | the integration cases where one file's lines contain the other's: equal files give nothing, `['a']` against `['a','b','c']` gives `{'b','c'}` on the right, an extra `'d'` on the left is the whole left diff |
| Engine.ChangedVectors | bigdiff/test/integration-test.py:122-124 | the integration cases where both sides have lines of their own: `x` (and `y`) on the left, `d` on the right |
| Engine.DuplicateVectors | bigdiff/test/integration-test.py:128-132 | the integration cases with duplicates: repeated lines are reported once, and `['a','b','a']` against `['b','c','c','c','c']` gives `{'a'}` and `{'c'}` |

## Left out

- gzip compression, and all directory and file handling: the `temp` and `diff` directories, `mkdir`, `rmtree`, `glob`, `join_abs_path`, open handles. Directories are maps and listings. Files are strings.
- Logging.
- The try/except/finally of `bigdiff`. The source logs and swallows every error; `Engine.BigDiff` returns it as a `Failure` instead. Removal of the temporary directory is not modelled.
- Failure of `os.mkdir` when the output directory already exists: a file-system effect.
- `mmh3.hash`: replaced by any deterministic `string -> int` parameter.
- `str.strip`: lines are split at '\n' only, with no other whitespace normalisation.
- `int()`/`str()` of the hashes stored in bucket files: the model stores the integers directly.
- The order in which Python iterates over a set when writing a diff file: `Output.Enumerate` picks any order.
- Names that `glob('*')` hides (dot files): the entry list is taken as `glob` returns it.
- `bigdiff/__main__.py` (argument parsing) and the file handling and shuffling of the integration test.
- The bounded-memory property (at most one bucket pair in memory at a time): it concerns resources, not results.
- Inputs.ResolveInputs: the `filename1 >= filename2` swap is modelled, but for two equal paths, which a directory cannot hold, the contract promises only a non-strict order.
