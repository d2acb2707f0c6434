/** The output writer and its inverse: a diff file is the non-empty diff
    lines joined by '\n', and reading it back line by line returns exactly
    those lines. */
module Output {

  /** Index of the first '\n' in `t`. */
  function FirstNewline(t: string): (i: nat)
    requires '\n' in t
    ensures i < |t| && t[i] == '\n' && '\n' !in t[..i]
  {
    if t[0] == '\n' then 0
    else
      var i := 1 + FirstNewline(t[1..]);
      assert t[..i] == [t[0]] + t[1..][..i - 1];
      i
  }

  /** The lines of a text as a file reader yields them, without their
      terminating '\n'; a final '\n' does not start another line. */
  function ReadLines(t: string): (lines: seq<string>)
    ensures forall i :: 0 <= i < |lines| ==> '\n' !in lines[i]
    decreases |t|
  {
    if t == [] then []
    else if '\n' !in t then [t]
    else
      var i := FirstNewline(t);
      [t[..i]] + ReadLines(t[i + 1..])
  }

  /** `'\n'.join(xs)`. */
  function Join(xs: seq<string>): string
  {
    if xs == [] then ""
    else if |xs| == 1 then xs[0]
    else xs[0] + "\n" + Join(xs[1..])
  }

  /** `filter(None, xs)`: drops the empty strings. */
  function NonEmpty(xs: seq<string>): (ys: seq<string>)
    ensures forall y :: y in ys <==> y in xs && y != ""
  {
    if xs == [] then []
    else (if xs[0] == "" then [] else [xs[0]]) + NonEmpty(xs[1..])
  }

  lemma FirstNewlineUnique(t: string, i: nat)
    requires i < |t| && t[i] == '\n' && '\n' !in t[..i]
    ensures '\n' in t && FirstNewline(t) == i
  {
  }

  /** Reading back what the writer joined gives the joined lines, as long as
      they are non-empty and hold no '\n'. */
  lemma {:induction false} ReadJoined(xs: seq<string>)
    requires forall i :: 0 <= i < |xs| ==> xs[i] != "" && '\n' !in xs[i]
    ensures ReadLines(Join(xs)) == xs
    decreases |xs|
  {
    if |xs| == 1 {
      assert '\n' !in Join(xs);
    } else if |xs| > 1 {
      var x, rest := xs[0], Join(xs[1..]);
      var t := x + "\n" + rest;
      assert t[..|x|] == x;
      FirstNewlineUnique(t, |x|);
      assert t[|x| + 1..] == rest;
      ReadJoined(xs[1..]);
    }
  }

  /** Python's iteration over a set: each element once, in whatever order
      the set yields them. */
  method Enumerate(s: set<string>) returns (xs: seq<string>)
    ensures forall x :: x in xs <==> x in s
    ensures |xs| == |s|
  {
    xs := [];
    var rest := s;
    while rest != {}
      invariant rest <= s
      invariant forall x :: x in xs <==> x in s && x !in rest
      invariant |xs| + |rest| == |s|
      decreases rest
    {
      var x :| x in rest;
      xs := xs + [x];
      rest := rest - {x};
    }
  }

  /** `write_diffs_to_output_files` for one side: a file that, read back,
      holds exactly the non-empty lines of the diff. An empty diff leaves the
      file empty. */
  method WriteDiffFile(diff: set<string>) returns (text: string)
    requires forall l :: l in diff ==> '\n' !in l
    ensures forall l :: l in ReadLines(text) <==> l in diff && l != ""
  {
    text := "";
    if diff != {} {
      var order := Enumerate(diff);
      var kept := NonEmpty(order);
      text := Join(kept);
      assert forall i :: 0 <= i < |kept| ==> kept[i] in kept;
      ReadJoined(kept);
    }
  }
}
