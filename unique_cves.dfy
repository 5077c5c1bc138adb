/** The mirror's own CVE counter: scans the dump tree, and rewrites the
    sorted list of unique identifiers only when it changed. An empty tree
    ends the run before the index is even looked at. */
module UniqueCves {
  import opened Wrappers
  import opened Order
  import opened Json
  import opened Corpus
  import opened CveIndex

  /** `main` as a function of the listing and the index file before it.
      This is the specification of the method `Count`, which runs `main`
      statement by statement. */
  function Run(files: seq<File>, dumps: Json -> string, output: Option<Stored>): Outcome
  {
    if files == [] then Outcome(NoFiles, output) else Refresh(files, dumps, output)
  }

  /** `main`, step by step. */
  method Count(files: seq<File>, dumps: Json -> string, output: Option<Stored>) returns (o: Outcome)
    ensures o == Run(files, dumps, output)
  {
    if |files| == 0 {
      return Outcome(NoFiles, output);
    }
    o := Rebuild(files, dumps, output);
  }

  /** With no file to scan the index is left as it is, whatever it held. */
  lemma EmptyTreeKeepsIndex(dumps: Json -> string, output: Option<Stored>)
    ensures Run([], dumps, output) == Outcome(NoFiles, output)
  {
  }

  /** Otherwise the index read back afterwards is the sorted identifiers of
      the tree, and a second run writes nothing. */
  lemma RunSettles(files: seq<File>, dumps: Json -> string, output: Option<Stored>)
    requires files != []
    ensures Canonical(LoadExisting(Run(files, dumps, output).output)) == IndexDoc(CveUnion(files, dumps))
    ensures Run(files, dumps, Run(files, dumps, output).output).report.NoChange?
  {
    RefreshResult(files, dumps, output);
    RefreshIdempotent(files, dumps, output);
  }
}
