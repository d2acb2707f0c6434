/** The partitioner: every line's hash goes to bucket `hash % num_buckets`,
    bucket files are named by the zero-padded bucket number, and a bucket
    file is created on the first write to that bucket. */
module Partition {
  import Lex
  import opened Decimal

  /** The bucket numbers Python's `h % n` can produce: `[0, n)` for a
      positive `n`, `(n, 0]` for a negative one. */
  predicate InRange(b: int, n: int)
  {
    if n > 0 then 0 <= b < n else n < b <= 0
  }

  /** `compute_bucket_number_from_hashed_line`: Python's floored `h % n`,
      which takes the sign of the divisor. */
  function BucketNumber(h: int, n: int): (b: int)
    requires n != 0
    ensures InRange(b, n)
    ensures b % n == h % n
  {
    var r := h % n;
    RemainderResidue(r, n);
    if n > 0 || r == 0 then r else r + n
  }

  /** A remainder is its own residue, and moving it by a negative divisor
      keeps that residue. */
  lemma RemainderResidue(r: int, n: int)
    requires n != 0 && 0 <= r < (if n > 0 then n else -n)
    ensures r % n == r
    ensures n < 0 ==> (r + n) % n == r
  {
    if n < 0 {
      assert r + n == n * 1 + r;
    }
  }

  /** The bucket number padded with zeros to the length of `str(n - 1)`. */
  function PaddedBucketNumber(b: int, n: int): string
  {
    Zeros(|PyStr(n - 1)| - |PyStr(b)|) + PyStr(b)
  }

  /** The bucket file name written by `write_hashed_line_to_bucket_file`. */
  function BucketFileName(b: int, n: int): string
  {
    PaddedBucketNumber(b, n) + ".gz"
  }

  /** For a positive bucket count, a padded bucket number is the bucket
      number written in exactly `len(str(n - 1))` decimal digits, so every
      padded name has that length. */
  lemma PaddedIsFixedWidth(b: int, n: int)
    requires n >= 1 && 0 <= b < n
    ensures PaddedBucketNumber(b, n) == FixedWidth(b, NumDigits(n - 1))
    ensures |PaddedBucketNumber(b, n)| == |PyStr(n - 1)|
    ensures b < Pow10(NumDigits(n - 1))
  {
    var w := NumDigits(n - 1);
    NumDigitsMonotone(b, n - 1);
    Pow10Monotone(NumDigits(b), w);
    FixedWidthPadding(b, NumDigits(b), w);
  }

  /** Sorting bucket file names as strings sorts them by bucket number. */
  lemma BucketNameOrder(b1: int, b2: int, n: int)
    requires n >= 1 && 0 <= b1 < n && 0 <= b2 < n
    ensures Lex.Less(BucketFileName(b1, n), BucketFileName(b2, n)) <==> b1 < b2
  {
    PaddedIsFixedWidth(b1, n);
    PaddedIsFixedWidth(b2, n);
    FixedWidthOrder(b1, b2, NumDigits(n - 1));
    Lex.SameSuffix(PaddedBucketNumber(b1, n), PaddedBucketNumber(b2, n), ".gz");
  }

  /** A padded name is the zeros, then the bucket's own decimal form. */
  lemma PaddedParts(b: int, n: int)
    requires |PyStr(b)| <= |PyStr(n - 1)|
    ensures var k := |PyStr(n - 1)| - |PyStr(b)|;
      PaddedBucketNumber(b, n)[..k] == Zeros(k) && PaddedBucketNumber(b, n)[k..] == PyStr(b)
  {
    var k := |PyStr(n - 1)| - |PyStr(b)|;
    assert |Zeros(k)| == k;
  }

  /** For a negative bucket count, a bucket's decimal form is no longer than
      that of `n - 1`, and it starts with '-' unless the bucket is 0. */
  lemma NegativeBucketStr(b: int, n: int)
    requires n < 0 && n < b <= 0
    ensures |PyStr(b)| <= |PyStr(n - 1)|
    ensures b == 0 <==> PyStr(b)[0] == '0'
  {
    assert PyStr(n - 1) == "-" + Str(1 - n);
    if b < 0 {
      assert PyStr(b) == "-" + Str(-b);
      NumDigitsMonotone(-b, 1 - n);
    } else {
      StrZero();
    }
  }

  lemma BucketNameInjective(b1: int, b2: int, n: int)
    requires n != 0 && InRange(b1, n) && InRange(b2, n)
    requires BucketFileName(b1, n) == BucketFileName(b2, n)
    ensures b1 == b2
  {
    var p1, p2 := PaddedBucketNumber(b1, n), PaddedBucketNumber(b2, n);
    assert |p1| == |p2|;
    assert p1 == BucketFileName(b1, n)[..|p1|];
    assert p2 == BucketFileName(b2, n)[..|p2|];
    if n > 0 {
      if b1 != b2 {
        BucketNameOrder(b1, b2, n);
        BucketNameOrder(b2, b1, n);
        Lex.Irreflexive(BucketFileName(b1, n));
      }
    } else {
      NegativePaddedInjective(b1, b2, n);
    }
  }

  /** For a negative bucket count, equal padded names mean equal buckets:
      the zeros end where the bucket's own decimal form begins, and only
      bucket 0 has a form that starts with '0'. */
  lemma NegativePaddedInjective(b1: int, b2: int, n: int)
    requires n < 0 && InRange(b1, n) && InRange(b2, n)
    requires PaddedBucketNumber(b1, n) == PaddedBucketNumber(b2, n)
    ensures b1 == b2
  {
    var p := PaddedBucketNumber(b1, n);
    NegativeBucketStr(b1, n);
    NegativeBucketStr(b2, n);
    PaddedParts(b1, n);
    PaddedParts(b2, n);
    var s1, s2 := PyStr(b1), PyStr(b2);
    var k1, k2 := |PyStr(n - 1)| - |s1|, |PyStr(n - 1)| - |s2|;
    if k1 == k2 {
      assert s1 == p[k1..] == s2;
      if b1 < 0 && b2 < 0 {
        assert Str(-b1) == s1[1..] && Str(-b2) == s2[1..];
        StrInjective(-b1, -b2);
      }
    }
  }

  /** Distinct buckets get distinct file names, whatever the sign of the bucket count. */
  lemma BucketFileNamesInjective(n: int)
    requires n != 0
    ensures forall b1, b2 :: InRange(b1, n) && InRange(b2, n) && BucketFileName(b1, n) == BucketFileName(b2, n) ==> b1 == b2
  {
    forall b1, b2 | InRange(b1, n) && InRange(b2, n) && BucketFileName(b1, n) == BucketFileName(b2, n)
      ensures b1 == b2
    {
      BucketNameInjective(b1, b2, n);
    }
  }

  /** The set of hashes of the lines of a file. */
  function Hashes(hash: string -> int, lines: seq<string>): set<int>
  {
    set l | l in lines :: hash(l)
  }

  lemma HashesSnoc(hash: string -> int, lines: seq<string>)
    requires lines != []
    ensures Hashes(hash, lines) == Hashes(hash, lines[..|lines| - 1]) + {hash(lines[|lines| - 1])}
  {
    assert lines == lines[..|lines| - 1] + [lines[|lines| - 1]];
  }

  /** Reference definition of one bucket's contents: the hashes of the
      lines that fall into bucket `b`, in input order. */
  function Bucket(hash: string -> int, lines: seq<string>, n: int, b: int): (s: seq<int>)
    requires n != 0
    ensures forall h :: h in s <==> h in Hashes(hash, lines) && BucketNumber(h, n) == b
    decreases |lines|
  {
    if lines == [] then []
    else
      var h := hash(lines[|lines| - 1]);
      HashesSnoc(hash, lines);
      Bucket(hash, lines[..|lines| - 1], n, b) + (if BucketNumber(h, n) == b then [h] else [])
  }

  /** Appending hash `h` to the file of bucket `b`; the file is opened (and
      so created empty) only if no handle for `b` exists yet. */
  function Write(handles: map<int, seq<int>>, b: int, h: int): map<int, seq<int>>
  {
    var file := if b in handles then handles[b] else [];
    handles[b := file + [h]]
  }

  /** `bucketize`: streams the lines, hashing each one and appending the hash
      to its bucket's file. The result maps each opened bucket to the
      hashes written to it. */
  function Bucketize(hash: string -> int, lines: seq<string>, n: int): (handles: map<int, seq<int>>)
    requires n != 0
    ensures forall b :: b in handles ==> InRange(b, n)
    ensures forall b :: b in handles <==> Bucket(hash, lines, n, b) != []
    ensures forall b :: b in handles ==> handles[b] == Bucket(hash, lines, n, b)
    decreases |lines|
  {
    if lines == [] then map[]
    else
      var h := hash(lines[|lines| - 1]);
      Write(Bucketize(hash, lines[..|lines| - 1], n), BucketNumber(h, n), h)
  }

  /** The bucket directory: each opened bucket as a file named by its padded
      bucket number. */
  function Directory(handles: map<int, seq<int>>, n: int): (dir: map<string, seq<int>>)
    requires n != 0
    requires forall b :: b in handles ==> InRange(b, n)
    ensures forall b :: b in handles ==> BucketFileName(b, n) in dir && dir[BucketFileName(b, n)] == handles[b]
    ensures forall k :: k in dir ==> exists b :: b in handles && k == BucketFileName(b, n)
  {
    BucketFileNamesInjective(n);
    map b | b in handles :: BucketFileName(b, n) := handles[b]
  }

  /** The bucket directory one input file leaves behind: every file holds
      only hashes of its own bucket, every hash of the input sits in the file
      of its bucket, and no file is empty. */
  function BucketDirectory(hash: string -> int, lines: seq<string>, n: int): (dir: map<string, seq<int>>)
    requires n != 0
    ensures forall k, h :: k in dir && h in dir[k] ==>
      h in Hashes(hash, lines) && k == BucketFileName(BucketNumber(h, n), n)
    ensures forall h :: h in Hashes(hash, lines) ==>
      BucketFileName(BucketNumber(h, n), n) in dir && h in dir[BucketFileName(BucketNumber(h, n), n)]
    ensures forall k :: k in dir ==> dir[k] != []
  {
    var handles := Bucketize(hash, lines, n);
    DirectoryOfBuckets(hash, lines, n, handles);
    Directory(handles, n)
  }

  lemma DirectoryOfBuckets(hash: string -> int, lines: seq<string>, n: int, handles: map<int, seq<int>>)
    requires n != 0 && handles == Bucketize(hash, lines, n)
    ensures forall k, h :: k in Directory(handles, n) && h in Directory(handles, n)[k] ==>
      h in Hashes(hash, lines) && k == BucketFileName(BucketNumber(h, n), n)
    ensures forall h :: h in Hashes(hash, lines) ==>
      BucketFileName(BucketNumber(h, n), n) in Directory(handles, n) && h in Directory(handles, n)[BucketFileName(BucketNumber(h, n), n)]
    ensures forall k :: k in Directory(handles, n) ==> Directory(handles, n)[k] != []
  {
    var dir := Directory(handles, n);
    forall k, h | k in dir && h in dir[k]
      ensures h in Hashes(hash, lines) && k == BucketFileName(BucketNumber(h, n), n)
    {
      var b :| b in handles && k == BucketFileName(b, n);
      assert h in Bucket(hash, lines, n, b);
    }
    forall h | h in Hashes(hash, lines)
      ensures BucketFileName(BucketNumber(h, n), n) in dir && h in dir[BucketFileName(BucketNumber(h, n), n)]
    {
      var b := BucketNumber(h, n);
      assert h in Bucket(hash, lines, n, b);
    }
    forall k | k in dir
      ensures dir[k] != []
    {
      var b :| b in handles && k == BucketFileName(b, n);
    }
  }

  /** The example of the source comment: with 457 buckets, bucket 9 is
      written to file "009". And Python's `%` follows the divisor's sign. */
  lemma BucketNamingExamples()
    ensures PaddedBucketNumber(9, 457) == "009"
    ensures BucketFileName(9, 457) == "009.gz"
    ensures BucketNumber(-7, 5) == 3 && BucketNumber(7, -5) == -3 && BucketNumber(-10, 5) == 0
  {
    assert NumDigits(456) == 3;
    assert Str(9) == "9";
    assert Zeros(2) == "00";
  }

  /** The hashes bucket `b` holds after a prefix of the input are a prefix
      of those it holds after the whole input. */
  lemma {:induction false} BucketPrefix(hash: string -> int, lines: seq<string>, i: int, n: int, b: int)
    requires n != 0 && 0 <= i <= |lines|
    ensures Bucket(hash, lines[..i], n, b) <= Bucket(hash, lines, n, b)
    decreases |lines|
  {
    if i < |lines| {
      var pre := lines[..|lines| - 1];
      assert pre[..i] == lines[..i];
      BucketPrefix(hash, pre, i, n, b);
    } else {
      assert lines[..i] == lines;
    }
  }

  /** A bucket file, once created, is never recreated: every later write
      only appends to it. */
  lemma BucketFilesOnlyGrow(hash: string -> int, lines: seq<string>, i: int, n: int)
    requires n != 0 && 0 <= i <= |lines|
    ensures forall b :: b in Bucketize(hash, lines[..i], n) ==>
      b in Bucketize(hash, lines, n) && Bucketize(hash, lines[..i], n)[b] <= Bucketize(hash, lines, n)[b]
  {
    forall b | b in Bucketize(hash, lines[..i], n)
      ensures b in Bucketize(hash, lines, n) && Bucketize(hash, lines[..i], n)[b] <= Bucketize(hash, lines, n)[b]
    {
      BucketPrefix(hash, lines, i, n, b);
    }
  }
}
