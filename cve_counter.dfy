/** The standalone CVE counter: the same scan and compare-then-write as the
    mirror's own counter, without the early stop on an empty tree. */
module CveCounter {
  import opened Wrappers
  import opened Order
  import opened Json
  import opened Corpus
  import opened CveIndex
  import UniqueCves

  /** `main` as a function of the listing and the index file before it;
      `CveIndex.Rebuild` carries it out step by step. */
  function Run(files: seq<File>, dumps: Json -> string, output: Option<Stored>): Outcome
  {
    Refresh(files, dumps, output)
  }

  /** The two counters agree on every non-empty tree. On an empty one this
      counter empties an index that lists anything, where the other leaves
      it alone. */
  lemma CountersAgree(files: seq<File>, dumps: Json -> string, output: Option<Stored>)
    ensures files != [] ==> Run(files, dumps, output) == UniqueCves.Run(files, dumps, output)
    ensures files == [] ==>
              (Run(files, dumps, output).output != UniqueCves.Run(files, dumps, output).output
               <==> Canonical(LoadExisting(output)) != JArr([]))
  {
    if files == [] {
      RefreshResult(files, dumps, output);
      assert SortedSet({}) == [];
      assert IndexDoc(CveUnion(files, dumps)) == JArr([]);
    }
  }
}
