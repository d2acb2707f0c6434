/** Python's ordering of `str` values: lexicographic by code point, where a
    proper prefix is smaller than the longer string. Used for the ordering of
    the two input paths and of bucket file names. */
module Lex {

  /** `a < b` on Python strings. */
  predicate Less(a: string, b: string)
    decreases |a|
  {
    |b| > 0 && (|a| == 0 || a[0] < b[0] || (a[0] == b[0] && Less(a[1..], b[1..])))
  }

  /** Strictly increasing, hence also free of duplicates. */
  predicate StrictlySorted(s: seq<string>)
  {
    forall i, j :: 0 <= i < j < |s| ==> Less(s[i], s[j])
  }

  lemma {:induction false} Irreflexive(a: string)
    ensures !Less(a, a)
    decreases |a|
  {
    if |a| > 0 {
      Irreflexive(a[1..]);
    }
  }

  lemma {:induction false} Transitive(a: string, b: string, c: string)
    requires Less(a, b) && Less(b, c)
    ensures Less(a, c)
    decreases |a|
  {
    if |a| > 0 && a[0] == b[0] && b[0] == c[0] {
      Transitive(a[1..], b[1..], c[1..]);
    }
  }

  lemma {:induction false} Asymmetric(a: string, b: string)
    requires Less(a, b)
    ensures !Less(b, a)
  {
    if Less(b, a) {
      Transitive(a, b, a);
      Irreflexive(a);
    }
  }

  lemma {:induction false} Total(a: string, b: string)
    ensures a == b || Less(a, b) || Less(b, a)
    decreases |a|
  {
    if |a| > 0 && |b| > 0 && a[0] == b[0] {
      Total(a[1..], b[1..]);
      if a[1..] == b[1..] {
        assert a == [a[0]] + a[1..];
        assert b == [b[0]] + b[1..];
      }
    }
  }

  /** Strings of equal length that each end in one more character compare
      by their beginnings first, then by that last character. */
  lemma {:induction false} SnocLess(a: string, c: char, b: string, d: char)
    requires |a| == |b|
    ensures Less(a + [c], b + [d]) <==> Less(a, b) || (a == b && c < d)
    decreases |a|
  {
    if |a| == 0 {
      assert a + [c] == [c] && b + [d] == [d];
      assert [c][1..] == [];
    } else {
      assert (a + [c])[1..] == a[1..] + [c];
      assert (b + [d])[1..] == b[1..] + [d];
      SnocLess(a[1..], c, b[1..], d);
      if a[0] == b[0] && a[1..] == b[1..] {
        assert a == [a[0]] + a[1..] && b == [b[0]] + b[1..];
      }
    }
  }

  /** Appending the same suffix to two strings of equal length keeps their
      order: this is why the ".gz" extension does not disturb the order of
      padded bucket numbers. */
  lemma {:induction false} SameSuffix(a: string, b: string, s: string)
    requires |a| == |b|
    ensures Less(a + s, b + s) <==> Less(a, b)
    decreases |a|
  {
    if |a| == 0 {
      assert a + s == s && b + s == s;
      Irreflexive(s);
    } else {
      assert (a + s)[1..] == a[1..] + s;
      assert (b + s)[1..] == b[1..] + s;
      SameSuffix(a[1..], b[1..], s);
    }
  }

  /** In a strictly sorted sequence, a string smaller than the element at `j`
      occurs nowhere from `j` on. */
  lemma NotInSortedSuffix(a: string, s: seq<string>, j: int)
    requires StrictlySorted(s)
    requires 0 <= j < |s| && Less(a, s[j])
    ensures forall y :: j <= y < |s| ==> a != s[y]
  {
    forall y | j <= y < |s|
      ensures a != s[y]
    {
      if y > j {
        Transitive(a, s[j], s[y]);
      }
      if a == s[y] {
        Irreflexive(a);
      }
    }
  }
}
