/** Line recovery: the buckets only hold hashes, so the original file is
    read again to find the lines whose hash survived the diff. */
module Recovery {

  /** `extract_original_lines_from_hashes_of_lines`: the distinct lines of
      the file whose hash is one of `targets`. With no targets the file is
      not read at all. */
  method ExtractOriginalLines(targets: set<int>, hash: string -> int, lines: seq<string>)
    returns (results: set<string>)
    ensures forall l :: l in results <==> l in lines && hash(l) in targets
  {
    results := {};
    if targets == {} {
      return;
    }
    var i := 0;
    while i < |lines|
      invariant 0 <= i <= |lines|
      invariant forall l :: l in results <==> l in lines[..i] && hash(l) in targets
    {
      var line := lines[i];
      if hash(line) in targets {
        results := results + {line};
      }
      assert lines[..i + 1] == lines[..i] + [line];
      i := i + 1;
    }
    assert lines[..i] == lines;
  }
}
