/** The input resolver: the input directory must hold exactly two regular
    files; the one with the smaller path is the left side. */
module Inputs {
  import Lex
  import opened Outcome

  /** One entry of the input directory: its path, whether it is a regular
      file, and its decompressed text. */
  datatype Entry = Entry(path: string, isFile: bool, content: string)

  /** `get_filenames_from_input_directory`, over the directory's entries in
      listing order. */
  function ResolveInputs(entries: seq<Entry>): (r: Result<(Entry, Entry)>)
    ensures |entries| == 0 ==> r == Failure(EmptyInputDirectory)
    ensures |entries| > 0 ==> (r.Success? <==> |entries| == 2 && entries[0].isFile && entries[1].isFile)
    ensures |entries| > 0 && r.Failure? ==> r.error == NotTwoFiles
    ensures r.Success? ==> multiset{r.value.0, r.value.1} == multiset(entries)
    ensures r.Success? ==> !Lex.Less(r.value.1.path, r.value.0.path)
    ensures r.Success? && entries[0].path != entries[1].path ==> Lex.Less(r.value.0.path, r.value.1.path)
  {
    if |entries| == 0 then Failure(EmptyInputDirectory)
    else if |entries| != 2 then Failure(NotTwoFiles)
    else if !entries[0].isFile || !entries[1].isFile then Failure(NotTwoFiles)
    else
      var file1, file2 := entries[0], entries[1];
      assert entries == [file1, file2];
      if Lex.Less(file1.path, file2.path) then
        Lex.Asymmetric(file1.path, file2.path);
        Success((file1, file2))
      else
        Lex.Total(file1.path, file2.path);
        Success((file2, file1))
  }
}
