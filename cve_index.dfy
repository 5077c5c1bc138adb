/** What the three CVE index builders share: the scan of a listing for
    identifiers, the JSON list they write, reading the previous list back,
    and the compare-then-write step of the two counters. */
module CveIndex {
  import opened Wrappers
  import opened Order
  import opened Json
  import opened Cve
  import opened Corpus

  /** The scan loop: `all_cves.update(found)` for every readable file; a file
      that cannot be read is reported and skipped. */
  method CollectCves(files: seq<File>, dumps: Json -> string) returns (cves: set<string>)
    ensures cves == CveUnion(files, dumps)
  {
    cves := {};
    for k := 0 to |files|
      invariant cves == CveUnion(files[..k], dumps)
    {
      assert files[..k + 1][..k] == files[..k];
      var file := files[k];
      if file.content.Readable? {
        var found := Extract(dumps(file.content.doc));
        cves := cves + found;
      }
    }
    assert files[..|files|] == files;
  }

  /** A list of strings as a JSON document. */
  function CveArray(xs: seq<string>): (j: Json)
    ensures j.JArr? && |j.items| == |xs|
    ensures forall k :: 0 <= k < |xs| ==> j.items[k] == JStr(xs[k])
  {
    if xs == [] then JArr([]) else JArr([JStr(xs[0])] + CveArray(xs[1..]).items)
  }

  /** A list of strings is already in canonical form: its `stable_hash` is
      that of the list itself. */
  lemma {:induction false} CveArrayCanonical(xs: seq<string>)
    ensures Canonical(CveArray(xs)) == CveArray(xs)
    decreases |xs|
  {
    if xs != [] {
      CveArrayCanonical(xs[1..]);
      var items := CveArray(xs).items;
      assert items[1..] == CveArray(xs[1..]).items;
      assert CanonItems(items) == [Canonical(items[0])] + CanonItems(items[1..]);
    }
  }

  /** `sorted(all_cves)` as the document the counters write. */
  function IndexDoc(cves: set<string>): Json
  {
    CveArray(SortedSet(cves))
  }

  /** The written index lists every identifier of the set once, ascending,
      and nothing else. */
  lemma IndexDocContents(cves: set<string>)
    ensures IndexDoc(cves).JArr? && |IndexDoc(cves).items| == |cves|
    ensures forall j :: j in IndexDoc(cves).items <==> j.JStr? && j.s in cves
    ensures forall p, q :: 0 <= p < q < |IndexDoc(cves).items| ==>
              StringLess(IndexDoc(cves).items[p].s, IndexDoc(cves).items[q].s)
  {
    var xs := SortedSet(cves);
    var items := IndexDoc(cves).items;
    forall j ensures j in items <==> j.JStr? && j.s in cves {
      if j in items {
        var k :| 0 <= k < |items| && items[k] == j;
        assert xs[k] in cves;
      }
      if j.JStr? && j.s in cves {
        var k :| 0 <= k < |xs| && xs[k] == j.s;
        assert items[k] == j;
      }
    }
  }

  /** `load_existing`: the previous index, or an empty list when the file is
      missing or cannot be parsed. */
  function LoadExisting(output: Option<Stored>): (previous: Json)
    ensures output.Some? && output.value.Readable? ==> previous == output.value.doc
    ensures output.None? || output.value.Unreadable? ==> previous == JArr([])
  {
    match output
    case Some(Readable(doc)) => doc
    case _ => JArr([])
  }

  /** `len(old)`: items of a list, members of a dict, characters of a string;
      a number, a boolean or `null` has no length and `len` raises. */
  function JsonLen(j: Json): (n: Option<nat>)
    ensures n.Some? <==> j.JArr? || j.JObj? || j.JStr?
    ensures j.JArr? ==> n == Some(|j.items|)
    ensures j.JObj? ==> n == Some(|j.members|)
    ensures j.JStr? ==> n == Some(|j.s|)
  {
    match j
    case JArr(items) => Some(|items|)
    case JObj(ms) => Some(|ms|)
    case JStr(s) => Some(|s|)
    case _ => None
  }

  /** What a counter reports, and the index file after it ran. */
  datatype Report =
    | NoFiles                                      // `No files found.`, nothing written
    | NoChange(unique: nat)                        // same `stable_hash`: nothing written
    | Updated(scanned: nat, unique: nat, delta: int)
    | LenRaised                                    // written, then `len(old)` raised `TypeError`

  datatype Outcome = Outcome(report: Report, output: Option<Stored>)

  /** `stable_hash(old) == stable_hash(sorted_cves)` */
  predicate SameHash(previous: Json, cves: seq<string>)
  {
    Canonical(previous) == Canonical(CveArray(cves))
  }

  /** The compare-then-write tail of both counters. */
  function Refresh(files: seq<File>, dumps: Json -> string, output: Option<Stored>): Outcome
  {
    Settle(|files|, SortedSet(CveUnion(files, dumps)), LoadExisting(output), output)
  }

  /** Compare the sorted identifiers `listed` with the `previous` index read
      from `output`, and write when they differ. This function specifies the
      method `Compare`; the two are kept apart only to keep each proof small. */
  function Settle(scanned: nat, listed: seq<string>, previous: Json, output: Option<Stored>): (o: Outcome)
    ensures o.report.NoChange? <==> SameHash(previous, listed)
    ensures o.report.NoChange? ==> o.report.unique == |listed| && o.output == output
    ensures !o.report.NoChange? ==> o.output == Some(Readable(CveArray(listed)))
    ensures o.report.LenRaised? <==> !SameHash(previous, listed) && JsonLen(previous).None?
    ensures o.report.Updated? ==>
              && o.report.scanned == scanned && o.report.unique == |listed|
              && o.report.delta == |listed| - JsonLen(previous).value
    ensures !o.report.NoFiles?
  {
    if SameHash(previous, listed) then Outcome(NoChange(|listed|), output)
    else
      var written := Some(Readable(CveArray(listed)));
      var n := JsonLen(previous);
      if n.None? then Outcome(LenRaised, written)
      else Outcome(Updated(scanned, |listed|, |listed| - n.value), written)
  }

  /** The tail step by step: scan, sort, read the old index, compare, write,
      report. */
  method Rebuild(files: seq<File>, dumps: Json -> string, output: Option<Stored>) returns (o: Outcome)
    ensures o == Refresh(files, dumps, output)
  {
    var all := CollectCves(files, dumps);
    var sortedCves := SortedSet(all);
    var previous := LoadExisting(output);
    o := Compare(|files|, sortedCves, previous, output);
  }

  /** `stable_hash` comparison, write and report, step by step. */
  method Compare(scanned: nat, sortedCves: seq<string>, previous: Json, output: Option<Stored>)
    returns (o: Outcome)
    ensures o == Settle(scanned, sortedCves, previous, output)
  {
    if SameHash(previous, sortedCves) {
      o := Outcome(NoChange(|sortedCves|), output);
    } else {
      var written := Some(Readable(CveArray(sortedCves)));
      var n := JsonLen(previous);
      if n.None? {
        o := Outcome(LenRaised, written);
      } else {
        o := Outcome(Updated(scanned, |sortedCves|, |sortedCves| - n.value), written);
      }
      assert n == JsonLen(previous);
    }
  }

  /** After the tail ran, reading the index back gives the sorted
      identifiers of the listing (up to `stable_hash`), and the file was
      rewritten exactly when its previous content hashed differently. */
  lemma RefreshResult(files: seq<File>, dumps: Json -> string, output: Option<Stored>)
    ensures var o := Refresh(files, dumps, output);
            && Canonical(LoadExisting(o.output)) == IndexDoc(CveUnion(files, dumps))
            && (o.output != output <==>
                Canonical(LoadExisting(output)) != IndexDoc(CveUnion(files, dumps)))
  {
    CveArrayCanonical(SortedSet(CveUnion(files, dumps)));
  }

  /** Running the tail again over the same listing changes nothing. */
  lemma RefreshIdempotent(files: seq<File>, dumps: Json -> string, output: Option<Stored>)
    ensures var o := Refresh(files, dumps, output);
            Refresh(files, dumps, o.output) == Outcome(NoChange(|CveUnion(files, dumps)|), o.output)
  {
    RefreshResult(files, dumps, output);
    CveArrayCanonical(SortedSet(CveUnion(files, dumps)));
  }

  /** The reported delta is the size of the new list less the length of the
      old document. */
  lemma RefreshDelta(files: seq<File>, dumps: Json -> string, output: Option<Stored>)
    ensures var o := Refresh(files, dumps, output);
            o.report.Updated? ==>
              JsonLen(LoadExisting(output)).Some? &&
              o.report.delta == |CveUnion(files, dumps)| - JsonLen(LoadExisting(output)).value
  {
  }

  /** "new today": when the previous index is an index of a subset of the
      identifiers found now, the delta is the number of identifiers added. */
  lemma DeltaCountsAdded(files: seq<File>, dumps: Json -> string, before: set<string>)
    requires before <= CveUnion(files, dumps)
    ensures var o := Refresh(files, dumps, Some(Readable(IndexDoc(before))));
            o.report.Updated? ==> o.report.delta == |CveUnion(files, dumps) - before|
  {
    RefreshDelta(files, dumps, Some(Readable(IndexDoc(before))));
    IndexDocContents(before);
    AddedCount(CveUnion(files, dumps), before);
  }

  lemma AddedCount(now: set<string>, before: set<string>)
    requires before <= now
    ensures |now - before| == |now| - |before|
  {
    assert now == (now - before) + before;
  }
}
