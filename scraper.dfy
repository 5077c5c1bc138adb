/** The CERT-FR advisory mirror: for every year from the start year to the
    current one, probe the advisories `<prefix>-<year>-AVI-<n>` for
    n = 1, 2, ... until 50 consecutive probes find nothing, and save each
    advisory whose content changed since the last run under
    `<year>/<ref>.json`. The web site is a parameter: for each year, the
    answers to the probes in order, every later probe answering 404. */
module Scraper {
  import opened Wrappers
  import opened Text
  import opened Json
  import opened Cve
  import opened Corpus
  import opened Order

  /** A year's scan stops after this many consecutive misses. */
  const MaxMisses: nat := 50

  /** The first year the mirror accepts as a start year. */
  const FirstYear: int := 2000

  const DocType: string := "AVI"

  // ---------------------------------------------------------------
  // Advisory references
  // ---------------------------------------------------------------

  /** The reference scheme of a year: CERTA until 2013, CERTFR since, with
      the advisory number padded to three digits until 2022 and to four
      since. */
  datatype Numbering = Numbering(prefix: string, digits: nat)

  function PrefixAndDigits(year: int): (n: Numbering)
    ensures n.prefix == "CERTA" <==> year <= 2013
    ensures n.prefix == "CERTA" || n.prefix == "CERTFR"
    ensures n.digits == 4 <==> 2023 <= year
    ensures n.digits == 3 || n.digits == 4
  {
    if year <= 2013 then Numbering("CERTA", 3)
    else if year <= 2022 then Numbering("CERTFR", 3)
    else Numbering("CERTFR", 4)
  }

  /** Everything of a reference before the advisory number. */
  function RefHead(year: int): (h: string)
    ensures h != [] && h[|h| - 1] == '-'
  {
    PrefixAndDigits(year).prefix + "-" + IntText(year) + "-" + DocType + "-"
  }

  /** `f"{prefix}-{year}-{DOCTYPE}-{i:0{digits}d}"` */
  function RefId(year: int, i: nat): string
  {
    RefHead(year) + ZeroPad(i, PrefixAndDigits(year).digits)
  }

  /** A reference is its head followed by nothing but digits, at least as
      many as the era's padding. */
  lemma RefIdShape(year: int, i: nat)
    ensures |RefHead(year)| + PrefixAndDigits(year).digits <= |RefId(year, i)|
    ensures RefId(year, i)[..|RefHead(year)|] == RefHead(year)
    ensures AllDigits(RefId(year, i)[|RefHead(year)|..])
  {
    var h, pad := RefHead(year), ZeroPad(i, PrefixAndDigits(year).digits);
    assert RefId(year, i)[|h|..] == pad;
  }

  /** Where advisory `i` of `year` is saved, relative to the dump root. */
  function OutPath(year: int, i: nat): Path
  {
    [IntText(year), RefId(year, i) + ".json"]
  }

  /** Advisory `i` of a year is saved in the year's directory, under a file
      whose stem is its reference. */
  lemma OutPathShape(year: int, i: nat)
    ensures |OutPath(year, i)| == 2 && OutPath(year, i)[0] == IntText(year)
    ensures Stem(OutPath(year, i)) == RefId(year, i)
  {
    var ref, dir := RefId(year, i), [IntText(year)];
    RefIdShape(year, i);
    StemOfJsonName(dir, ref);
    assert dir + [ref + ".json"] == OutPath(year, i);
  }

  /** The text after the last `-` of a reference. */
  function AfterLastDash(s: string): (r: string)
    ensures |r| <= |s|
    decreases |s|
  {
    if s == [] || s[|s| - 1] == '-' then [] else AfterLastDash(s[..|s| - 1]) + [s[|s| - 1]]
  }

  /** The advisory number a reference carries, read back from its digits;
      `None` when the tail is not a number. */
  function RefNumber(ref: string): Option<nat>
  {
    var tail := AfterLastDash(ref);
    if tail != [] && AllDigits(tail) then Some(DecimalValue(tail)) else None
  }

  lemma {:induction false} AfterDashOfDigits(h: string, d: string)
    requires h != [] && h[|h| - 1] == '-'
    requires AllDigits(d)
    ensures AfterLastDash(h + d) == d
    decreases |d|
  {
    if d == [] {
      assert h + d == h;
    } else {
      var s := h + d;
      assert s[..|s| - 1] == h + d[..|d| - 1];
      AfterDashOfDigits(h, d[..|d| - 1]);
      assert d == d[..|d| - 1] + [d[|d| - 1]];
    }
  }

  /** Reading the number back out of a reference gives the advisory number
      it was built from, whatever the era's padding. */
  lemma RefIdRoundTrip(year: int, i: nat)
    ensures RefNumber(RefId(year, i)) == Some(i)
  {
    var pad := ZeroPad(i, PrefixAndDigits(year).digits);
    AfterDashOfDigits(RefHead(year), pad);
  }

  /** Two probes of one year never share a file. */
  lemma OutPathInjective(year: int, m: nat, n: nat)
    requires OutPath(year, m) == OutPath(year, n)
    ensures m == n
  {
    var a, b := RefId(year, m), RefId(year, n);
    assert a + ".json" == b + ".json";
    assert |a| == |b|;
    assert a == (a + ".json")[..|a|];
    assert b == (b + ".json")[..|b|];
    RefIdRoundTrip(year, m);
    RefIdRoundTrip(year, n);
  }

  /** With three-digit padding, advisory 1000 is named so that it sorts
      before advisory 101: file order is not advisory order. */
  lemma ThousandthSortsEarly()
    ensures StringLess(RefId(2022, 1000) + ".json", RefId(2022, 101) + ".json")
  {
    PaddedSamples();
    SortsEarlyAfter(RefHead(2022));
  }

  lemma SortsEarlyAfter(h: string)
    ensures StringLess((h + "1000") + ".json", (h + "101") + ".json")
  {
    assert (h + "1000") + ".json" == h + "1000.json";
    assert (h + "101") + ".json" == h + "101.json";
    TailsCompare();
    CommonPrefixLess(h, "1000.json", "101.json");
  }

  /** A worked sample for `ThousandthSortsEarly`: the two references of
      2022 spelled out. */
  lemma PaddedSamples()
    ensures RefId(2022, 1000) == RefHead(2022) + "1000"
    ensures RefId(2022, 101) == RefHead(2022) + "101"
  {
    DecimalSamples();
    assert PrefixAndDigits(2022).digits == 3;
    assert ZeroPad(1000, 3) == "1000";
    assert ZeroPad(101, 3) == "101";
  }

  /** A worked sample for `ThousandthSortsEarly`: the decimal texts it
      needs. */
  lemma DecimalSamples()
    ensures Decimal(1000) == "1000" && Decimal(101) == "101"
  {
    assert Decimal(1) == "1";
    assert Decimal(10) == "10";
    assert Decimal(100) == "100";
  }

  /** A worked sample for `ThousandthSortsEarly`: where the two file names
      first differ, `0` sorts before `1`. */
  lemma TailsCompare()
    ensures StringLess("1000.json", "101.json")
  {
    var x, y := "1000.json", "101.json";
    assert x[1..][1..] == "00.json" && y[1..][1..] == "1.json";
    assert CharLess(x[1..][1..][0], y[1..][1..][0]);
    assert SeqLess(x[1..], y[1..], CharLess);
  }

  lemma {:induction false} CommonPrefixLess(h: string, x: string, y: string)
    requires StringLess(x, y)
    ensures StringLess(h + x, h + y)
    decreases |h|
  {
    if h == [] {
      assert h + x == x && h + y == y;
    } else {
      CommonPrefixLess(h[1..], x, y);
      assert (h + x)[1..] == h[1..] + x;
      assert (h + y)[1..] == h[1..] + y;
      assert (h + x)[0] == h[0] == (h + y)[0];
    }
  }

  // ---------------------------------------------------------------
  // Fetching one advisory
  // ---------------------------------------------------------------

  /** What the server did for one request. */
  datatype Response =
    | NoResponse  // `requests.RequestException`: DNS failure, timeout, reset
    | Http(status: int, contentType: string, body: Option<Json>)  // `None`: `r.json()` fails

  /** The second component of `fetch_json`'s answer, with the document when
      there is one. */
  datatype FetchOutcome =
    | Fetched(doc: Json)
    | NotFound
    | HttpError(code: int)
    | NotJson
    | JsonDecodeError
    | NetworkError

  /** `fetch_json`: a document only for a 200 answer whose content type names
      JSON and whose body parses. */
  function FetchJson(r: Response): (o: FetchOutcome)
    ensures o.Fetched? <==> r.Http? && r.status == 200 && r.body.Some?
                            && Contains(Lower(r.contentType), "application/json")
    ensures o.Fetched? ==> o.doc == r.body.value
    ensures o.HttpError? <==> r.Http? && r.status != 200 && r.status != 404
    ensures o.HttpError? ==> o.code == r.status
    ensures o.NotJson? <==> r.Http? && r.status == 200
                            && !Contains(Lower(r.contentType), "application/json")
    ensures o.JsonDecodeError? <==> r.Http? && r.status == 200 && r.body.None?
                                    && Contains(Lower(r.contentType), "application/json")
    ensures o.NotFound? <==> r.Http? && r.status == 404
    ensures o.NetworkError? <==> r.NoResponse?
  {
    match r
    case NoResponse => NetworkError
    case Http(status, contentType, body) =>
      if status == 404 then NotFound
      else if status != 200 then HttpError(status)
      else if !Contains(Lower(contentType), "application/json") then NotJson
      else if body.None? then JsonDecodeError
      else Fetched(body.value)
  }

  /** How the year loop treats a probe: 404 and non-JSON answers are misses,
      every other failure is an error that resets the miss count. */
  datatype Probe = Miss | Failure(outcome: FetchOutcome) | Hit(doc: Json)

  function Classify(o: FetchOutcome): (p: Probe)
    ensures p.Miss? <==> o.NotFound? || o.NotJson?
    ensures p.Hit? <==> o.Fetched?
    ensures p.Hit? ==> p.doc == o.doc
  {
    match o
    case NotFound => Miss
    case NotJson => Miss
    case Fetched(doc) => Hit(doc)
    case _ => Failure(o)
  }

  /** The answer to probe `i` (from 1) of a year: past the listed answers the
      server has nothing. */
  function Answer(server: seq<Response>, i: nat): Response
  {
    if 1 <= i <= |server| then server[i - 1] else Http(404, "", None)
  }

  function ProbeAt(server: seq<Response>, i: nat): Probe
  {
    Classify(FetchJson(Answer(server, i)))
  }

  // ---------------------------------------------------------------
  // Deciding to write
  // ---------------------------------------------------------------

  /** `should_update`: write when the file is missing, cannot be parsed, or
      holds a document whose `stable_hash` differs. */
  function ShouldUpdate(store: Store, path: Path, doc: Json): (r: bool)
    ensures Lookup(store, path).None? ==> r
    ensures Lookup(store, path) == Some(Unreadable) ==> r
  {
    match Lookup(store, path)
    case None => true
    case Some(Unreadable) => true
    case Some(Readable(saved)) => Canonical(saved) != Canonical(doc)
  }

  /** Over a readable saved advisory, the answer is written exactly when it
      differs from it in more than the order of keys: a reordered answer is
      settled, a changed field is an update. */
  lemma ShouldUpdateIffChanged(store: Store, path: Path, saved: Json, fetched: Json)
    requires Lookup(store, path) == Some(Readable(saved))
    requires WellKeyed(saved) && WellKeyed(fetched)
    ensures ShouldUpdate(store, path, fetched) <==> !SameUpToKeyOrder(saved, fetched)
  {
    CanonicalEqualIff(saved, fetched);
  }

  // ---------------------------------------------------------------
  // One year
  // ---------------------------------------------------------------

  /** The loop variables of `download_year`, with the dump tree it writes. */
  datatype YearState = YearState(
    i: nat, misses: nat,
    downloaded: nat, updated: nat, skipped: nat, errors: nat,
    store: Store)

  /** The number of consecutive misses among probes 1..n that end at probe n. */
  ghost function Streak(server: seq<Response>, n: nat): nat
    decreases n
  {
    if n == 0 then 0
    else if ProbeAt(server, n).Miss? then Streak(server, n - 1) + 1
    else 0
  }

  /** Past the listed answers every probe misses. */
  lemma {:induction false} StreakPastEnd(server: seq<Response>, n: nat)
    ensures n >= |server| ==> Streak(server, n) >= n - |server|
    decreases n
  {
    if n > |server| {
      StreakPastEnd(server, n - 1);
    }
  }

  /** One iteration of the `while` loop. This function specifies the
      method `ProbeOnce`, which runs the same iteration statement by
      statement; the loop body is its own method only to keep each proof
      small. */
  function Step(server: seq<Response>, year: int, st: YearState): (r: YearState)
    requires st.i >= 1
    ensures r.i == st.i + 1
    ensures r.misses == if ProbeAt(server, st.i).Miss? then st.misses + 1 else 0
  {
    var path := OutPath(year, st.i);
    match ProbeAt(server, st.i)
    case Miss => st.(i := st.i + 1, misses := st.misses + 1)
    case Failure(_) => st.(i := st.i + 1, misses := 0, errors := st.errors + 1)
    case Hit(doc) =>
      if ShouldUpdate(st.store, path, doc) then
        if path in st.store then
          st.(i := st.i + 1, misses := 0, updated := st.updated + 1, store := st.store[path := Readable(doc)])
        else
          st.(i := st.i + 1, misses := 0, downloaded := st.downloaded + 1, store := st.store[path := Readable(doc)])
      else st.(i := st.i + 1, misses := 0, skipped := st.skipped + 1)
  }

  /** The loop from state `st` on, until 50 consecutive misses. */
  function RunFrom(server: seq<Response>, year: int, st: YearState): (r: YearState)
    requires st.i >= 1 && st.misses == Streak(server, st.i - 1)
    ensures r.i >= st.i && r.misses == Streak(server, r.i - 1) && r.misses >= MaxMisses
    decreases |server| + MaxMisses + 1 - st.i
  {
    if st.misses >= MaxMisses then st
    else
      StreakPastEnd(server, st.i - 1);
      RunFrom(server, year, Step(server, year, st))
  }

  function YearStart(store: Store): YearState
  {
    YearState(1, 0, 0, 0, 0, 0, store)
  }

  /** `download_year` as a function of the server's answers and the tree. */
  function YearRun(server: seq<Response>, year: int, store: Store): YearState
  {
    RunFrom(server, year, YearStart(store))
  }

  /** `download_year`: returns the new and updated counts and the tree after
      the year's writes. */
  method DownloadYear(server: seq<Response>, year: int, store: Store)
    returns (downloaded: nat, updated: nat, tree: Store)
    ensures downloaded == YearRun(server, year, store).downloaded
    ensures updated == YearRun(server, year, store).updated
    ensures tree == YearRun(server, year, store).store
  {
    var consecutiveMisses: nat := 0;
    var i: nat := 1;
    downloaded, updated := 0, 0;
    var skipped: nat, errors: nat := 0, 0;
    tree := store;
    ghost var st := YearStart(store);
    while consecutiveMisses < MaxMisses
      invariant st.i >= 1 && st.misses == Streak(server, st.i - 1)
      invariant RunFrom(server, year, st) == YearRun(server, year, store)
      invariant i == st.i && consecutiveMisses == st.misses
      invariant downloaded == st.downloaded && updated == st.updated
      invariant skipped == st.skipped && errors == st.errors && tree == st.store
      decreases |server| + MaxMisses + 1 - i
    {
      StreakPastEnd(server, i - 1);
      RunFromStep(server, year, st);
      consecutiveMisses, downloaded, updated, skipped, errors, tree :=
        ProbeOnce(server, year, i, consecutiveMisses, downloaded, updated, skipped, errors, tree);
      i := i + 1;
      st := Step(server, year, st);
    }
    RunFromDone(server, year, st);
  }

  /** One pass of the loop body: fetch reference `i`, classify the answer,
      and write, count or skip. */
  method ProbeOnce(server: seq<Response>, year: int, i: nat, misses: nat,
                   downloaded: nat, updated: nat, skipped: nat, errors: nat, tree: Store)
    returns (misses': nat, downloaded': nat, updated': nat, skipped': nat, errors': nat, tree': Store)
    requires i >= 1
    ensures var r := Step(server, year, YearState(i, misses, downloaded, updated, skipped, errors, tree));
            && misses' == r.misses && downloaded' == r.downloaded && updated' == r.updated
            && skipped' == r.skipped && errors' == r.errors && tree' == r.store
  {
    misses', downloaded', updated', skipped', errors', tree' := misses, downloaded, updated, skipped, errors, tree;
    var outFile := OutPath(year, i);
    var status := FetchJson(Answer(server, i));
    if status.NotFound? || status.NotJson? {
      misses' := misses + 1;
    } else if !status.Fetched? {
      errors' := errors + 1;
      misses' := 0;
    } else {
      misses' := 0;
      var obj := status.doc;
      if ShouldUpdate(tree, outFile, obj) {
        if outFile in tree {
          updated' := updated + 1;
        } else {
          downloaded' := downloaded + 1;
        }
        tree' := tree[outFile := Readable(obj)];
      } else {
        skipped' := skipped + 1;
      }
    }
  }

  /** Before 50 consecutive misses the loop takes one more step. */
  lemma RunFromStep(server: seq<Response>, year: int, st: YearState)
    requires st.i >= 1 && st.misses == Streak(server, st.i - 1) && st.misses < MaxMisses
    ensures Step(server, year, st).misses == Streak(server, st.i)
    ensures RunFrom(server, year, st) == RunFrom(server, year, Step(server, year, st))
  {
    var miss := ProbeAt(server, st.i).Miss?;
    assert Streak(server, st.i) == if miss then st.misses + 1 else 0;
  }

  /** After 50 consecutive misses the loop ends. */
  lemma RunFromDone(server: seq<Response>, year: int, st: YearState)
    requires st.i >= 1 && st.misses == Streak(server, st.i - 1) && st.misses >= MaxMisses
    ensures RunFrom(server, year, st) == st
  {
  }

  // ---------------------------------------------------------------
  // What a year's run does, probe by probe
  // ---------------------------------------------------------------

  /** What probe `n` does, judged against the tree as it was before the
      year's run. */
  datatype Kind = KMiss | KError | KNew | KUpdated | KSkipped

  function KindAt(server: seq<Response>, year: int, store0: Store, n: nat): Kind
  {
    match ProbeAt(server, n)
    case Miss => KMiss
    case Failure(_) => KError
    case Hit(doc) =>
      if !ShouldUpdate(store0, OutPath(year, n), doc) then KSkipped
      else if Lookup(store0, OutPath(year, n)).Some? then KUpdated
      else KNew
  }

  /** The number of probes among 1 .. hi-1 of kind `k`. */
  function CountKind(server: seq<Response>, year: int, store0: Store, hi: nat, k: Kind): nat
    decreases hi
  {
    if hi <= 1 then 0
    else CountKind(server, year, store0, hi - 1, k) + if KindAt(server, year, store0, hi - 1) == k then 1 else 0
  }

  /** The file of probe `n` once the probe is done: the fetched document
      when the probe wrote, what was there before otherwise. */
  function Expected(server: seq<Response>, year: int, store0: Store, n: nat): Option<Stored>
  {
    var k := KindAt(server, year, store0, n);
    if k == KNew || k == KUpdated then Some(Readable(ProbeAt(server, n).doc))
    else Lookup(store0, OutPath(year, n))
  }

  /** `p` is the file of one of the probes 1 .. hi-1. */
  ghost predicate Probed(year: int, p: Path, hi: nat)
  {
    exists n: nat :: 1 <= n < hi && p == OutPath(year, n)
  }

  /** The counters and the tree after probes 1 .. st.i-1, each probe judged
      on its own against the tree before the run. */
  ghost predicate Accounted(server: seq<Response>, year: int, store0: Store, st: YearState)
  {
    CountsAccounted(server, year, store0, st) && FilesAccounted(server, year, store0, st)
  }

  /** Each counter counts the probes of its kind. */
  ghost predicate CountsAccounted(server: seq<Response>, year: int, store0: Store, st: YearState)
  {
    && st.downloaded == CountKind(server, year, store0, st.i, KNew)
    && st.updated == CountKind(server, year, store0, st.i, KUpdated)
    && st.skipped == CountKind(server, year, store0, st.i, KSkipped)
    && st.errors == CountKind(server, year, store0, st.i, KError)
  }

  /** The file of every probe so far is as expected; every other file is as
      it was. */
  ghost predicate FilesAccounted(server: seq<Response>, year: int, store0: Store, st: YearState)
  {
    && (forall n: nat :: 1 <= n < st.i ==> Lookup(st.store, OutPath(year, n)) == Expected(server, year, store0, n))
    && (forall p :: !Probed(year, p, st.i) ==> Lookup(st.store, p) == Lookup(store0, p))
  }

  lemma StepAccounted(server: seq<Response>, year: int, store0: Store, st: YearState)
    requires st.i >= 1 && Accounted(server, year, store0, st)
    ensures Accounted(server, year, store0, Step(server, year, st))
  {
    var path := OutPath(year, st.i);
    assert !Probed(year, path, st.i) by {
      if m: nat :| 1 <= m < st.i && path == OutPath(year, m) {
        OutPathInjective(year, m, st.i);
      }
    }
    StepEffect(server, year, store0, st);
    StepCounts(server, year, store0, st);
    StepFiles(server, year, store0, st);
  }

  lemma StepCounts(server: seq<Response>, year: int, store0: Store, st: YearState)
    requires st.i >= 1 && CountsAccounted(server, year, store0, st)
    requires Lookup(st.store, OutPath(year, st.i)) == Lookup(store0, OutPath(year, st.i))
    ensures CountsAccounted(server, year, store0, Step(server, year, st))
  {
    StepEffect(server, year, store0, st);
    CountKindNext(server, year, store0, st.i, KNew);
    CountKindNext(server, year, store0, st.i, KUpdated);
    CountKindNext(server, year, store0, st.i, KSkipped);
    CountKindNext(server, year, store0, st.i, KError);
  }

  lemma CountKindNext(server: seq<Response>, year: int, store0: Store, i: nat, k: Kind)
    requires i >= 1
    ensures CountKind(server, year, store0, i + 1, k)
            == CountKind(server, year, store0, i, k) + if KindAt(server, year, store0, i) == k then 1 else 0
  {
  }

  lemma StepFiles(server: seq<Response>, year: int, store0: Store, st: YearState)
    requires st.i >= 1 && FilesAccounted(server, year, store0, st)
    requires Lookup(st.store, OutPath(year, st.i)) == Lookup(store0, OutPath(year, st.i))
    ensures FilesAccounted(server, year, store0, Step(server, year, st))
  {
    var n := st.i;
    var path := OutPath(year, n);
    var r := Step(server, year, st);
    StepEffect(server, year, store0, st);
    forall m: nat | 1 <= m < r.i
      ensures Lookup(r.store, OutPath(year, m)) == Expected(server, year, store0, m)
    {
      if m < n && OutPath(year, m) == path {
        OutPathInjective(year, m, n);
      }
    }
    forall p | !Probed(year, p, r.i)
      ensures Lookup(r.store, p) == Lookup(store0, p)
    {
      assert p != path;
      assert !Probed(year, p, n);
    }
  }

  /** One probe, against a tree whose file for it is still as before the run:
      it adds one to the counter of its kind and sets its own file to what is
      expected; no other file changes. */
  lemma StepEffect(server: seq<Response>, year: int, store0: Store, st: YearState)
    requires st.i >= 1
    requires Lookup(st.store, OutPath(year, st.i)) == Lookup(store0, OutPath(year, st.i))
    ensures var r, k := Step(server, year, st), KindAt(server, year, store0, st.i);
            && r.downloaded == st.downloaded + (if k == KNew then 1 else 0)
            && r.updated == st.updated + (if k == KUpdated then 1 else 0)
            && r.skipped == st.skipped + (if k == KSkipped then 1 else 0)
            && r.errors == st.errors + (if k == KError then 1 else 0)
            && Lookup(r.store, OutPath(year, st.i)) == Expected(server, year, store0, st.i)
            && forall p :: p != OutPath(year, st.i) ==> Lookup(r.store, p) == Lookup(st.store, p)
  {
  }

  lemma {:induction false} RunFromAccounted(server: seq<Response>, year: int, store0: Store, st: YearState)
    requires st.i >= 1 && st.misses == Streak(server, st.i - 1)
    requires Accounted(server, year, store0, st)
    ensures Accounted(server, year, store0, RunFrom(server, year, st))
    decreases |server| + MaxMisses + 1 - st.i
  {
    if st.misses < MaxMisses {
      StreakPastEnd(server, st.i - 1);
      StepAccounted(server, year, store0, st);
      RunFromAccounted(server, year, store0, Step(server, year, st));
    }
  }

  /** The year's counters count the probes of each kind, and its tree holds
      the fetched document exactly where a probe wrote; every other file is as
      it was. */
  lemma YearRunAccounted(server: seq<Response>, year: int, store0: Store)
    ensures Accounted(server, year, store0, YearRun(server, year, store0))
  {
    RunFromAccounted(server, year, store0, YearStart(store0));
  }

  lemma {:induction false} RunFromStops(server: seq<Response>, year: int, st: YearState)
    requires st.i >= 1 && st.misses == Streak(server, st.i - 1) && st.misses <= MaxMisses
    requires forall n: nat :: n < st.i - 1 ==> Streak(server, n) < MaxMisses
    ensures Streak(server, RunFrom(server, year, st).i - 1) == MaxMisses
    ensures forall n: nat :: n < RunFrom(server, year, st).i - 1 ==> Streak(server, n) < MaxMisses
    decreases |server| + MaxMisses + 1 - st.i
  {
    if st.misses < MaxMisses {
      StreakPastEnd(server, st.i - 1);
      RunFromStops(server, year, Step(server, year, st));
    }
  }

  /** A year's scan ends right after the first run of 50 consecutive misses:
      not before, and errors in between start the count afresh. */
  lemma YearRunStops(server: seq<Response>, year: int, store0: Store)
    ensures Streak(server, YearRun(server, year, store0).i - 1) == MaxMisses
    ensures forall n: nat :: n < YearRun(server, year, store0).i - 1 ==> Streak(server, n) < MaxMisses
  {
    RunFromStops(server, year, YearStart(store0));
  }

  /** How far a year's scan goes depends on the server alone. */
  lemma YearRunLength(server: seq<Response>, year: int, s1: Store, s2: Store)
    ensures YearRun(server, year, s1).i == YearRun(server, year, s2).i
  {
    YearRunStops(server, year, s1);
    YearRunStops(server, year, s2);
  }

  /** Every advisory the server returned is on disk after the run with the
      same `stable_hash`. */
  ghost predicate Mirrored(server: seq<Response>, year: int, store: Store, hi: nat)
  {
    forall n: nat :: 1 <= n < hi && ProbeAt(server, n).Hit? ==>
      !ShouldUpdate(store, OutPath(year, n), ProbeAt(server, n).doc)
  }

  lemma YearRunMirrors(server: seq<Response>, year: int, store0: Store)
    ensures Mirrored(server, year, YearRun(server, year, store0).store, YearRun(server, year, store0).i)
  {
    YearRunAccounted(server, year, store0);
  }

  lemma {:induction false} CountKindNone(server: seq<Response>, year: int, store0: Store, hi: nat, k: Kind)
    requires forall n: nat :: 1 <= n < hi ==> KindAt(server, year, store0, n) != k
    ensures CountKind(server, year, store0, hi, k) == 0
    decreases hi
  {
    if hi > 1 {
      CountKindNone(server, year, store0, hi - 1, k);
    }
  }

  lemma LookupExtensional(a: Store, b: Store)
    requires forall p :: Lookup(a, p) == Lookup(b, p)
    ensures a == b
  {
    assert forall p :: p in a <==> Lookup(a, p).Some?;
    assert forall p :: p in b <==> Lookup(b, p).Some?;
  }

  /** Running a year again against an unchanged server downloads and
      updates nothing and leaves the tree as it is. */
  lemma SecondRunQuiet(server: seq<Response>, year: int, store0: Store)
    ensures var r := YearRun(server, year, store0);
            var again := YearRun(server, year, r.store);
            again.downloaded == 0 && again.updated == 0 && again.store == r.store
  {
    var r := YearRun(server, year, store0);
    var again := YearRun(server, year, r.store);
    YearRunMirrors(server, year, store0);
    YearRunLength(server, year, store0, r.store);
    YearRunAccounted(server, year, r.store);
    forall n: nat | 1 <= n < again.i
      ensures KindAt(server, year, r.store, n) != KNew && KindAt(server, year, r.store, n) != KUpdated
    {
    }
    CountKindNone(server, year, r.store, again.i, KNew);
    CountKindNone(server, year, r.store, again.i, KUpdated);
    forall p ensures Lookup(again.store, p) == Lookup(r.store, p) {
      if Probed(year, p, again.i) {
        var n: nat :| 1 <= n < again.i && p == OutPath(year, n);
      }
    }
    LookupExtensional(again.store, r.store);
  }

  // ---------------------------------------------------------------
  // All years
  // ---------------------------------------------------------------

  /** The running totals and the tree after the years start .. end-1. */
  datatype Totals = Totals(added: nat, changed: nat, store: Store)

  function YearsUpTo(site: int -> seq<Response>, start: int, end: int, store0: Store): Totals
    decreases end - start
  {
    if end <= start then Totals(0, 0, store0)
    else
      var t := YearsUpTo(site, start, end - 1, store0);
      var r := YearRun(site(end - 1), end - 1, t.store);
      Totals(t.added + r.downloaded, t.changed + r.updated, r.store)
  }

  /** `main`: refuses a start year outside 2000 .. the current year with exit
      code 1 and no request made; otherwise mirrors every year up to the
      current one and exits with 0 whatever the totals. */
  method Mirror(site: int -> seq<Response>, startYear: int, currentYear: int, store: Store)
    returns (code: int, totalNew: nat, totalUpdated: nat, tree: Store)
    ensures startYear < FirstYear || startYear > currentYear ==>
              code == 1 && totalNew == 0 && totalUpdated == 0 && tree == store
    ensures FirstYear <= startYear <= currentYear ==>
              && code == 0
              && totalNew == YearsUpTo(site, startYear, currentYear + 1, store).added
              && totalUpdated == YearsUpTo(site, startYear, currentYear + 1, store).changed
              && tree == YearsUpTo(site, startYear, currentYear + 1, store).store
  {
    totalNew, totalUpdated, tree := 0, 0, store;
    if startYear < FirstYear || startYear > currentYear {
      return 1, totalNew, totalUpdated, tree;
    }
    for year := startYear to currentYear + 1
      invariant totalNew == YearsUpTo(site, startYear, year, store).added
      invariant totalUpdated == YearsUpTo(site, startYear, year, store).changed
      invariant tree == YearsUpTo(site, startYear, year, store).store
    {
      totalNew, totalUpdated, tree := MirrorYear(site, startYear, year, store, totalNew, totalUpdated, tree);
    }
    code := 0;
  }

  /** One pass of `main`'s loop: `download_year` and the running totals. */
  method MirrorYear(site: int -> seq<Response>, startYear: int, year: int, store: Store,
                    totalNew: nat, totalUpdated: nat, tree: Store)
    returns (totalNew': nat, totalUpdated': nat, tree': Store)
    requires startYear <= year
    requires totalNew == YearsUpTo(site, startYear, year, store).added
    requires totalUpdated == YearsUpTo(site, startYear, year, store).changed
    requires tree == YearsUpTo(site, startYear, year, store).store
    ensures totalNew' == YearsUpTo(site, startYear, year + 1, store).added
    ensures totalUpdated' == YearsUpTo(site, startYear, year + 1, store).changed
    ensures tree' == YearsUpTo(site, startYear, year + 1, store).store
  {
    NextYear(site, startYear, year, store);
    var d, u;
    d, u, tree' := DownloadYear(site(year), year, tree);
    totalNew' := totalNew + d;
    totalUpdated' := totalUpdated + u;
  }

  /** The totals after one more year. */
  lemma NextYear(site: int -> seq<Response>, start: int, year: int, store0: Store)
    requires start <= year
    ensures var t, r := YearsUpTo(site, start, year, store0), YearRun(site(year), year, YearsUpTo(site, start, year, store0).store);
            && YearsUpTo(site, start, year + 1, store0).added == t.added + r.downloaded
            && YearsUpTo(site, start, year + 1, store0).changed == t.changed + r.updated
            && YearsUpTo(site, start, year + 1, store0).store == r.store
  {
  }

  /** The sum over the years start .. end-1 of what each year's run would
      add, and update, on the tree as it was before any year ran. */
  function SumAdded(site: int -> seq<Response>, start: int, end: int, store0: Store): nat
    decreases end - start
  {
    if end <= start then 0
    else SumAdded(site, start, end - 1, store0) + YearRun(site(end - 1), end - 1, store0).downloaded
  }

  function SumChanged(site: int -> seq<Response>, start: int, end: int, store0: Store): nat
    decreases end - start
  {
    if end <= start then 0
    else SumChanged(site, start, end - 1, store0) + YearRun(site(end - 1), end - 1, store0).updated
  }

  /** A year's run touches nothing outside its own year directory. */
  lemma YearRunLocal(server: seq<Response>, year: int, store0: Store, p: Path)
    requires p == [] || p[0] != IntText(year)
    ensures Lookup(YearRun(server, year, store0).store, p) == Lookup(store0, p)
  {
    YearRunAccounted(server, year, store0);
  }

  lemma {:induction false} CountKindSameFiles(server: seq<Response>, year: int, s1: Store, s2: Store, hi: nat, k: Kind)
    requires forall n: nat :: 1 <= n < hi ==> Lookup(s1, OutPath(year, n)) == Lookup(s2, OutPath(year, n))
    ensures CountKind(server, year, s1, hi, k) == CountKind(server, year, s2, hi, k)
    decreases hi
  {
    if hi > 1 {
      CountKindSameFiles(server, year, s1, s2, hi - 1, k);
      assert KindAt(server, year, s1, hi - 1) == KindAt(server, year, s2, hi - 1);
    }
  }

  /** A year's counters depend only on its own directory. */
  lemma YearRunSameFiles(server: seq<Response>, year: int, s1: Store, s2: Store)
    requires forall p :: p != [] && p[0] == IntText(year) ==> Lookup(s1, p) == Lookup(s2, p)
    ensures YearRun(server, year, s1).downloaded == YearRun(server, year, s2).downloaded
    ensures YearRun(server, year, s1).updated == YearRun(server, year, s2).updated
  {
    YearRunLength(server, year, s1, s2);
    YearRunAccounted(server, year, s1);
    YearRunAccounted(server, year, s2);
    var hi := YearRun(server, year, s1).i;
    forall n: nat | 1 <= n < hi ensures Lookup(s1, OutPath(year, n)) == Lookup(s2, OutPath(year, n)) {
      assert OutPath(year, n)[0] == IntText(year);
    }
    CountKindSameFiles(server, year, s1, s2, hi, KNew);
    CountKindSameFiles(server, year, s1, s2, hi, KUpdated);
  }

  /** The years do not interfere: the global summary is the sum of what each
      year's run would report on the tree as it was before, and nothing
      outside the mirrored years' directories changes. */
  lemma {:induction false} YearsIndependent(site: int -> seq<Response>, start: int, end: int, store0: Store)
    ensures YearsUpTo(site, start, end, store0).added == SumAdded(site, start, end, store0)
    ensures YearsUpTo(site, start, end, store0).changed == SumChanged(site, start, end, store0)
    ensures forall p :: (p == [] || forall y :: start <= y < end ==> p[0] != IntText(y)) ==>
              Lookup(YearsUpTo(site, start, end, store0).store, p) == Lookup(store0, p)
    decreases end - start
  {
    if end > start {
      var year := end - 1;
      YearsIndependent(site, start, year, store0);
      var t := YearsUpTo(site, start, year, store0);
      forall p | p != [] && p[0] == IntText(year) ensures Lookup(t.store, p) == Lookup(store0, p) {
        forall y | start <= y < year ensures p[0] != IntText(y) {
          IntTextInjective(y, year);
        }
      }
      YearRunSameFiles(site(year), year, t.store, store0);
      forall p | p == [] || forall y :: start <= y < end ==> p[0] != IntText(y)
        ensures Lookup(YearsUpTo(site, start, end, store0).store, p) == Lookup(store0, p)
      {
        YearRunLocal(site(year), year, t.store, p);
      }
    }
  }
}
