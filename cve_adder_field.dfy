/** The index writer without comparison: scans the dump tree and writes the
    sorted list of unique identifiers every time. */
module CveAdderField {
  import opened Wrappers
  import opened Order
  import opened Json
  import opened Corpus
  import opened CveIndex
  import CveCounter

  /** `main`: the index file afterwards and the two counts it prints. Every
      listed file counts as scanned, unreadable ones included. */
  method Build(files: seq<File>, dumps: Json -> string) returns (output: Stored, scanned: nat, unique: nat)
    ensures output == Readable(IndexDoc(CveUnion(files, dumps)))
    ensures scanned == |files|
    ensures unique == |CveUnion(files, dumps)|
  {
    scanned := |files|;
    var all := CollectCves(files, dumps);
    var sortedCves := SortedSet(all);
    output := Readable(CveArray(sortedCves));
    unique := |sortedCves|;
  }

  /** The written index does not depend on the order the walk lists the
      files in. */
  lemma BuildOrderFree(a: seq<File>, b: seq<File>, dumps: Json -> string)
    requires forall f :: f in a <==> f in b
    ensures IndexDoc(CveUnion(a, dumps)) == IndexDoc(CveUnion(b, dumps))
  {
    CveUnionOrderFree(a, b, dumps);
  }

  /** The standalone counter run after this writer over the same tree finds
      nothing to change: both write the same document. */
  lemma CounterAfterBuildQuiet(files: seq<File>, dumps: Json -> string)
    ensures CveCounter.Run(files, dumps, Some(Readable(IndexDoc(CveUnion(files, dumps))))).report.NoChange?
  {
    CveArrayCanonical(SortedSet(CveUnion(files, dumps)));
  }
}
