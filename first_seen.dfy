/** The first-seen index: for every CVE identifier in the dump tree, the
    advisory it first appears in (files taken in sorted path order) and the
    date that advisory carries. */
module FirstSeen {
  import opened Wrappers
  import opened Order
  import opened Json
  import opened Cve
  import opened Corpus
  import Text
  import Scraper

  // ---------------------------------------------------------------
  // extract_date
  // ---------------------------------------------------------------

  /** The date fields tried, in order of preference. */
  const DateKeys: seq<string> := ["date", "publication_date", "released", "timestamp"]

  /** What `extract_date` gives: the value of the first date field present,
      no date, or a `TypeError` out of `k in obj` or `obj[k]`. */
  datatype DateLookup = Found(value: Json) | Absent | Raised

  /** Python's `k in obj` for a string `k`: a key of a dict, an element of a
      list, a substring of a string; `None` where `in` raises (a number, a
      boolean, `null`). */
  function KeyIn(obj: Json, k: string): Option<bool>
  {
    match obj
    case JObj(_) => Some(HasKey(obj, k))
    case JArr(items) => Some(JStr(k) in items)
    case JStr(s) => Some(Text.Contains(s, k))
    case _ => None
  }

  /** The loop of `extract_date` over the keys still to try. Indexing a list
      or a string by a string raises, so only a dict yields a value. */
  function DateFrom(obj: Json, keys: seq<string>): DateLookup
    decreases |keys|
  {
    if keys == [] then Absent
    else
      match KeyIn(obj, keys[0])
      case None => Raised
      case Some(true) => if obj.JObj? then Found(Get(obj, keys[0])) else Raised
      case Some(false) => DateFrom(obj, keys[1..])
  }

  function ExtractDate(obj: Json): (d: DateLookup)
    ensures d.Found? ==> obj.JObj?
    ensures d.Raised? <==>
              !obj.JObj? && exists k :: 0 <= k < |DateKeys| && KeyIn(obj, DateKeys[k]) != Some(false)
  {
    DateFromFirst(obj, DateKeys);
    DateFromRaised(obj, DateKeys);
    DateFrom(obj, DateKeys)
  }

  /** The lookup finds a value exactly when the document is a dict holding
      one of the keys, and that value is the one under the first key of the
      list that the dict holds. */
  lemma {:induction false} DateFromFirst(obj: Json, keys: seq<string>)
    ensures DateFrom(obj, keys).Found? <==>
              obj.JObj? && exists k :: 0 <= k < |keys| && HasKey(obj, keys[k])
    ensures DateFrom(obj, keys).Found? ==>
              exists k :: && 0 <= k < |keys| && HasKey(obj, keys[k])
                          && DateFrom(obj, keys).value == Get(obj, keys[k])
                          && forall j :: 0 <= j < k ==> !HasKey(obj, keys[j])
    decreases |keys|
  {
    if keys != [] {
      var rest := keys[1..];
      DateFromFirst(obj, rest);
      if KeyIn(obj, keys[0]) == Some(false) {
        if exists k :: 0 <= k < |keys| && HasKey(obj, keys[k]) {
          var k :| 0 <= k < |keys| && HasKey(obj, keys[k]);
          assert k != 0 && HasKey(obj, rest[k - 1]);
        }
        if DateFrom(obj, keys).Found? {
          var k :| && 0 <= k < |rest| && HasKey(obj, rest[k])
                   && DateFrom(obj, rest).value == Get(obj, rest[k])
                   && forall j :: 0 <= j < k ==> !HasKey(obj, rest[j]);
          assert HasKey(obj, keys[k + 1]);
          assert forall j :: 0 <= j < k + 1 ==> !HasKey(obj, keys[j]) by {
            forall j | 0 <= j < k + 1 ensures !HasKey(obj, keys[j]) {
              if j > 0 {
                assert keys[j] == rest[j - 1];
              }
            }
          }
        }
      } else if obj.JObj? {
        assert HasKey(obj, keys[0]);
      }
    }
  }

  /** Anything but a dict raises as soon as one of the keys is `in` it, or as
      soon as `in` does not apply to it; a dict never does. */
  lemma {:induction false} DateFromRaised(obj: Json, keys: seq<string>)
    ensures DateFrom(obj, keys).Raised? <==>
              !obj.JObj? && exists k :: 0 <= k < |keys| && KeyIn(obj, keys[k]) != Some(false)
    decreases |keys|
  {
    if keys != [] {
      var rest := keys[1..];
      DateFromRaised(obj, rest);
      if KeyIn(obj, keys[0]) == Some(false) {
        if exists k :: 0 <= k < |keys| && KeyIn(obj, keys[k]) != Some(false) {
          var k :| 0 <= k < |keys| && KeyIn(obj, keys[k]) != Some(false);
          assert k != 0 && KeyIn(obj, rest[k - 1]) != Some(false);
        }
        if exists k :: 0 <= k < |rest| && KeyIn(obj, rest[k]) != Some(false) {
          var k :| 0 <= k < |rest| && KeyIn(obj, rest[k]) != Some(false);
          assert KeyIn(obj, keys[k + 1]) != Some(false);
        }
      }
    }
  }

  /** `extract_date` on a dict never raises: it gives the first of the four
      date fields present, or no date when none is. */
  lemma DateOfDict(obj: Json)
    requires obj.JObj?
    ensures !ExtractDate(obj).Raised?
    ensures ExtractDate(obj).Absent? <==> forall k :: 0 <= k < |DateKeys| ==> !HasKey(obj, DateKeys[k])
    ensures ExtractDate(obj).Found? ==>
              exists k :: && 0 <= k < |DateKeys| && HasKey(obj, DateKeys[k])
                          && ExtractDate(obj).value == Get(obj, DateKeys[k])
                          && forall j :: 0 <= j < k ==> !HasKey(obj, DateKeys[j])
  {
    DateFromFirst(obj, DateKeys);
    DateFromRaised(obj, DateKeys);
  }

  /** A number, a boolean or `null` at the top of a document makes
      `extract_date` raise on its first `in`. */
  lemma DateOfScalar(obj: Json)
    requires obj.JNull? || obj.JBool? || obj.JNum?
    ensures ExtractDate(obj).Raised?
  {
    DateFromRaised(obj, DateKeys);
    assert KeyIn(obj, DateKeys[0]).None?;
  }

  /** A list without any of the four key strings among its elements gives no
      date; one with such an element raises when indexed by it. */
  lemma DateOfList(items: seq<Json>)
    ensures ExtractDate(JArr(items)).Raised? <==> exists k :: 0 <= k < |DateKeys| && JStr(DateKeys[k]) in items
    ensures !ExtractDate(JArr(items)).Raised? ==> ExtractDate(JArr(items)).Absent?
  {
    DateFromFirst(JArr(items), DateKeys);
    DateFromRaised(JArr(items), DateKeys);
  }

  /** A string gives no date unless one of the four keys is a substring of
      it; then indexing the string by that key raises. */
  lemma DateOfText(text: string)
    ensures ExtractDate(JStr(text)).Raised? <==> exists k :: 0 <= k < |DateKeys| && Text.Contains(text, DateKeys[k])
    ensures !ExtractDate(JStr(text)).Raised? ==> ExtractDate(JStr(text)).Absent?
  {
    DateFromFirst(JStr(text), DateKeys);
    DateFromRaised(JStr(text), DateKeys);
  }

  // ---------------------------------------------------------------
  // The first-seen map
  // ---------------------------------------------------------------

  /** One value of `first_seen`: the advisory id (the file's stem) and its
      date, `None` when the advisory has none. */
  datatype Entry = Entry(seenIn: string, date: Option<Json>)

  function DateValue(d: DateLookup): Option<Json>
  {
    if d.Found? then Some(d.value) else None
  }

  /** The entry a readable file gives each identifier it introduces. */
  function EntryOf(f: File): Entry
    requires f.content.Readable?
  {
    Entry(Stem(f.path), DateValue(ExtractDate(f.content.doc)))
  }

  /** `if cve not in first_seen: first_seen[cve] = entry` for each `cve`:
      every identifier gets an entry, and an existing entry is never
      overwritten. */
  function Absorb(seen: map<string, Entry>, cves: set<string>, e: Entry): (r: map<string, Entry>)
    ensures r.Keys == seen.Keys + cves
    ensures forall c :: c in seen ==> r[c] == seen[c]
    ensures forall c :: c in cves && c !in seen ==> r[c] == e
  {
    map c | c in seen.Keys + cves :: if c in seen then seen[c] else e
  }

  /** One pass of the file loop: an unreadable file is skipped; otherwise the
      map absorbs the file's identifiers, or the run stops (`None`) when
      `extract_date` raises. */
  function AbsorbFile(seen: map<string, Entry>, f: File, dumps: Json -> string): Option<map<string, Entry>>
  {
    if f.content.Unreadable? then Some(seen)
    else if ExtractDate(f.content.doc).Raised? then None
    else Some(Absorb(seen, FileCves(f, dumps), EntryOf(f)))
  }

  /** `first_seen` after the files of `files`, from an empty dict. */
  function SeenAfter(files: seq<File>, dumps: Json -> string): (r: Option<map<string, Entry>>)
    ensures r.Some? ==> r.value.Keys == CveUnion(files, dumps)
    decreases |files|
  {
    if files == [] then Some(map[])
    else
      match SeenAfter(files[..|files| - 1], dumps)
      case None => None
      case Some(seen) => AbsorbFile(seen, files[|files| - 1], dumps)
  }

  /** `sorted(ROOT.rglob("*.json"))` */
  function Ordered(listing: seq<File>): seq<File>
  {
    SortBy(listing, FilePath, PathLess)
  }

  /** How a run ends: nothing to do, stopped by `extract_date`, or the map
      written to the output file. */
  datatype Outcome = NoFiles | Crashed | Written(firstSeen: map<string, Entry>)

  /** `main` as a function of the listing the walk yields. */
  function Run(listing: seq<File>, dumps: Json -> string): Outcome
  {
    var files := Ordered(listing);
    if files == [] then NoFiles
    else
      match SeenAfter(files, dumps)
      case None => Crashed
      case Some(m) => Written(m)
  }

  /** `main` step by step: sort the listing, stop when it is empty, fold the
      files into `first_seen` one identifier at a time, write it. */
  method Build(listing: seq<File>, dumps: Json -> string) returns (o: Outcome)
    ensures o == Run(listing, dumps)
  {
    var files := Ordered(listing);
    var total := |files|;
    if total == 0 {
      return NoFiles;
    }
    var firstSeen: map<string, Entry> := map[];
    for idx := 0 to total
      invariant SeenAfter(files[..idx], dumps) == Some(firstSeen)
    {
      SeenAfterNext(files, dumps, idx);
      var file := files[idx];
      var advisoryId := Stem(file.path);
      if file.content.Unreadable? {
        continue;
      }
      var data := file.content.doc;
      var cves := Extract(dumps(data));
      var date := ExtractDate(data);
      if date.Raised? {
        CrashStops(files, dumps, idx + 1);
        return Crashed;
      }
      firstSeen := AbsorbAll(firstSeen, cves, Entry(advisoryId, DateValue(date)));
    }
    assert files[..total] == files;
    o := Written(firstSeen);
  }

  /** The inner loop over one file's identifiers, in whatever order the set
      yields them. */
  method AbsorbAll(seen: map<string, Entry>, cves: set<string>, entry: Entry)
    returns (firstSeen: map<string, Entry>)
    ensures firstSeen == Absorb(seen, cves, entry)
  {
    firstSeen := seen;
    var rest := cves;
    ghost var done: set<string> := {};
    while rest != {}
      invariant done + rest == cves
      invariant firstSeen == Absorb(seen, done, entry)
      decreases |rest|
    {
      var cve :| cve in rest;
      AbsorbOne(seen, done, cve, entry);
      MoveOne(done, rest, cve);
      if cve !in firstSeen {
        firstSeen := firstSeen[cve := entry];
      }
      done, rest := done + {cve}, rest - {cve};
    }
    assert done == cves;
  }

  lemma MoveOne(done: set<string>, rest: set<string>, x: string)
    requires x in rest
    ensures (done + {x}) + (rest - {x}) == done + rest
  {
  }

  /** Absorbing one more identifier adds its entry only when it has none. */
  lemma AbsorbOne(seen: map<string, Entry>, done: set<string>, c: string, e: Entry)
    ensures var m := Absorb(seen, done, e);
            Absorb(seen, done + {c}, e) == if c in m then m else m[c := e]
  {
    var m := Absorb(seen, done, e);
    var r := Absorb(seen, done + {c}, e);
    var t := if c in m then m else m[c := e];
    assert r.Keys == t.Keys;
    assert forall x :: x in r ==> r[x] == t[x];
  }

  /** The fold over one more file. */
  lemma SeenAfterNext(files: seq<File>, dumps: Json -> string, n: nat)
    requires n < |files|
    ensures SeenAfter(files[..n + 1], dumps) ==
              match SeenAfter(files[..n], dumps)
              case None => None
              case Some(seen) => AbsorbFile(seen, files[n], dumps)
  {
    assert files[..n + 1][..n] == files[..n];
  }

  /** Once `extract_date` has raised, no later file is looked at. */
  lemma {:induction false} CrashStops(files: seq<File>, dumps: Json -> string, n: nat)
    requires n <= |files| && SeenAfter(files[..n], dumps).None?
    ensures SeenAfter(files, dumps).None?
    decreases |files| - n
  {
    if n < |files| {
      assert files[..n + 1][..n] == files[..n];
      CrashStops(files, dumps, n + 1);
    } else {
      assert files[..n] == files;
    }
  }

  // ---------------------------------------------------------------
  // What the map holds
  // ---------------------------------------------------------------

  /** The run goes through exactly when no readable file makes
      `extract_date` raise. */
  lemma {:induction false} SeenAfterDefined(files: seq<File>, dumps: Json -> string)
    ensures SeenAfter(files, dumps).Some? <==>
              forall k :: 0 <= k < |files| && files[k].content.Readable? ==> !ExtractDate(files[k].content.doc).Raised?
    decreases |files|
  {
    if files != [] {
      var init := files[..|files| - 1];
      SeenAfterDefined(init, dumps);
      assert forall k :: 0 <= k < |init| ==> init[k] == files[k];
    }
  }

  /** An entry, once made, survives every later file unchanged. */
  lemma {:induction false} SeenAfterKeeps(files: seq<File>, dumps: Json -> string, n: nat)
    requires n <= |files| && SeenAfter(files, dumps).Some?
    ensures SeenAfter(files[..n], dumps).Some?
    ensures forall c :: c in SeenAfter(files[..n], dumps).value ==>
              c in SeenAfter(files, dumps).value &&
              SeenAfter(files, dumps).value[c] == SeenAfter(files[..n], dumps).value[c]
    decreases |files| - n
  {
    if n == |files| {
      assert files[..n] == files;
    } else {
      var init := files[..|files| - 1];
      assert init[..n] == files[..n];
      SeenAfterKeeps(init, dumps, n);
    }
  }

  /** Every entry names the first file of the listing that holds the
      identifier, with that file's date. */
  lemma {:induction false} SeenAfterEarliest(files: seq<File>, dumps: Json -> string, c: string)
    requires SeenAfter(files, dumps).Some? && c in SeenAfter(files, dumps).value
    ensures exists k :: && 0 <= k < |files| && c in FileCves(files[k], dumps)
                        && (forall j :: 0 <= j < k ==> c !in FileCves(files[j], dumps))
                        && SeenAfter(files, dumps).value[c] == EntryOf(files[k])
    decreases |files|
  {
    var init, last := files[..|files| - 1], files[|files| - 1];
    var seen := SeenAfter(init, dumps).value;
    assert SeenAfter(files, dumps) == AbsorbFile(seen, last, dumps);
    var after := SeenAfter(files, dumps).value;
    if c in seen {
      SeenAfterEarliest(init, dumps, c);
      var k :| && 0 <= k < |init| && c in FileCves(init[k], dumps)
               && (forall j :: 0 <= j < k ==> c !in FileCves(init[j], dumps))
               && seen[c] == EntryOf(init[k]);
      assert files[k] == init[k];
      assert after[c] == seen[c];
      forall j | 0 <= j < k ensures c !in FileCves(files[j], dumps) {
        assert files[j] == init[j];
      }
    } else {
      CveUnionMembers(init, dumps, c);
      assert c in FileCves(last, dumps);
      assert after[c] == EntryOf(last);
      forall j | 0 <= j < |init| ensures c !in FileCves(files[j], dumps) {
        assert files[j] == init[j];
      }
    }
  }

  // ---------------------------------------------------------------
  // The whole run
  // ---------------------------------------------------------------

  /** Nothing is written exactly when the walk finds no file. */
  lemma RunNoFiles(listing: seq<File>, dumps: Json -> string)
    ensures Run(listing, dumps).NoFiles? <==> listing == []
  {
    assert |Ordered(listing)| == |multiset(Ordered(listing))| == |multiset(listing)| == |listing|;
  }

  /** The sorted listing holds the same files as the walk. */
  lemma OrderedSameFiles(listing: seq<File>)
    ensures forall f :: f in Ordered(listing) <==> f in listing
  {
    forall f ensures f in Ordered(listing) <==> f in listing {
      assert f in Ordered(listing) <==> f in multiset(Ordered(listing));
    }
  }

  /** The written map has an entry for every identifier of every readable
      file, and for nothing else. */
  lemma RunKeys(listing: seq<File>, dumps: Json -> string)
    requires Run(listing, dumps).Written?
    ensures Run(listing, dumps).firstSeen.Keys == CveUnion(listing, dumps)
  {
    OrderedSameFiles(listing);
    CveUnionOrderFree(Ordered(listing), listing, dumps);
  }

  /** Each written entry comes from the first file, in sorted path order,
      that holds the identifier: no file sorting before it holds it. */
  lemma RunEarliest(listing: seq<File>, dumps: Json -> string, c: string)
    requires Run(listing, dumps).Written? && c in Run(listing, dumps).firstSeen
    ensures var files := Ordered(listing);
            exists k :: && 0 <= k < |files| && c in FileCves(files[k], dumps)
                        && (forall j :: 0 <= j < k ==> c !in FileCves(files[j], dumps))
                        && Run(listing, dumps).firstSeen[c] == EntryOf(files[k])
  {
    SeenAfterEarliest(Ordered(listing), dumps, c);
  }

  /** The files are taken in ascending path order. */
  lemma OrderedAscending(listing: seq<File>)
    ensures SortedBy(Ordered(listing), FilePath, PathLess)
  {
    PathLessOrder();
    SortBySorted(listing, FilePath, PathLess);
  }

  /** The result does not depend on the order the walk yields the files in. */
  lemma RunOrderFree(a: seq<File>, b: seq<File>, dumps: Json -> string)
    requires multiset(a) == multiset(b)
    requires DistinctKeys(a, FilePath)
    ensures Run(a, dumps) == Run(b, dumps)
  {
    PathLessOrder();
    SortBySorted(a, FilePath, PathLess);
    SortBySorted(b, FilePath, PathLess);
    SortByDistinct(a, FilePath, PathLess);
    SortedUnique(Ordered(a), Ordered(b), FilePath, PathLess);
  }

  /** "First" is path order, not advisory order: in a year numbered with
      three digits, advisory 1000's file sorts before advisory 101's. */
  lemma ThousandthBeforeHundredFirst()
    ensures PathLess(Scraper.OutPath(2022, 1000), Scraper.OutPath(2022, 101))
  {
    var a, b := Scraper.OutPath(2022, 1000), Scraper.OutPath(2022, 101);
    Scraper.ThousandthSortsEarly();
    assert a[1..] == [a[1]] && b[1..] == [b[1]];
    assert SeqLess(a[1..], b[1..], StringLess);
  }
}
