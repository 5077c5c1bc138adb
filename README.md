# CERT-FR advisory mirror and CVE indexes, in Dafny

This project models the core of a CERT-FR advisory mirror and proves properties of that model. The mirror has four parts:

- **Mirror** (`Scraper`). For each year from a start year to the current year, it probes the advisory references `<prefix>-<year>-AVI-<n>` for n = 1, 2, ….
  - A year's scan ends after 50 consecutive misses.
  - Each advisory is saved under `<year>/<ref>.json`, but only when it is new, when the saved file does not parse, or when its `stable_hash` changed.
  - It counts the new and the updated advisories.
- **Unique-CVE index builders**.
  - Two counters share one pipeline (`CveIndex`): union every CVE identifier found in the tree, sort, compare with the stored index by `stable_hash`, and write only when they differ.
    - `UniqueCves` stops early on an empty tree.
    - `CveCounter` has no early stop.
  - A third builder (`CveAdderField`) always writes.
- **First-seen builder** (`FirstSeen`). It takes the files in sorted path order. Each CVE maps to the first advisory that mentions it, together with that advisory's date (the first of four date fields present). An entry is never overwritten.

Shared modules:

| module | models |
|---|---|
| `Text` | decimal text, zero padding, ASCII case, substring test |
| `Order` | Python's `<` on strings and paths; a stable sort and its uniqueness; `sorted()` of a set |
| `Json` | JSON documents, and the key-sorted canonical form behind `stable_hash` |
| `Cve` | the identifier regex `(?i)\bCVE-\d{4}-\d{4,7}\b` as a left-to-right scan |
| `Corpus` | the dump tree as a map from path to stored content, and the union of the identifiers across a listing |

The network, the clock and the directory walk are inputs:
- **The web site** is a function from a year to the answers to that year's probes, in order. Every probe past the list answers 404, so every year's scan meets 50 misses in a row and ends.
- **The current year and the start year** are parameters.
- **A directory listing** is a sequence of files, each either readable as a JSON document or not.
- **`json.dumps` of a document** is a parameter `dumps`.

The unique-CVE index is rebuilt from the current tree on every run; nothing of the previous index is carried over. An identifier therefore drops out of the index when the advisory that cited it is overwritten by a version that no longer cites it, or when its files are removed. On an empty tree the mirror's own counter leaves the index alone, while the standalone counter (`database/CVE_counter.py`) writes `[]` over a non-empty index. `CveCounter.CountersAgree` states that case.

## Model

| member | source | states |
|---|---|---|
| Text.Contains | database/scripts/scraper.py:125 | `needle in hay` is true exactly when some window of `hay` equals `needle` |
| Text.DecimalRoundTrip | database/scripts/scraper.py:155 | reading `str(n)` back as a decimal number gives `n` |
| Text.ZeroPad | database/scripts/scraper.py:155 | `{i:0{digits}d}` has length max(width, length of `str(i)`), is all digits and denotes `i`; it is `str(i)` itself when that is already wide enough |
| Text.ZeroPadInjective | database/scripts/scraper.py:155 | two advisory numbers padded to the same width give the same text only if they are equal |
| Text.IntTextInjective | database/scripts/scraper.py:143 | `str(year)` is injective, so distinct years have distinct directories |
| Scraper.PrefixAndDigits | database/scripts/scraper.py:68-73 | the prefix is `CERTA` exactly for years up to 2013 and `CERTFR` after; numbers are padded to four digits exactly from 2023 on, to three before |
| Scraper.RefIdShape | database/scripts/scraper.py:155 | a reference is the head `<prefix>-<year>-AVI-` followed by nothing but digits, at least as many as the era's padding |
| Scraper.RefIdRoundTrip | database/scripts/scraper.py:155 | the number read back from the digits after the last dash of a reference is the advisory number it was built from, in every era (CERTA, CERTFR, three or four digits) |
| Scraper.OutPathShape | database/scripts/scraper.py:155-157 | advisory `i` of a year is saved in the directory named by the year, under a file whose stem is its reference |
| Scraper.OutPathInjective | database/scripts/scraper.py:155-157 | two probes of one year never write the same file |
| Corpus.Stem | database/build_first_seen.py:35 | `Path.stem` is a prefix of the file name. It differs from the name exactly when the name's last dot is neither its first nor its last character, and then it stops at that dot. A name with no dot strictly inside is kept whole |
| Corpus.StemOfJsonName | database/build_first_seen.py:35 | the stem of `<dir>/<ref>.json` is `ref`, so the advisory id a file is listed under is the reference it was saved as |
| Scraper.ThousandthSortsEarly | database/scripts/scraper.py:155 | with three-digit padding, advisory 1000's file name sorts before advisory 101's |
| Scraper.FetchJson | database/scripts/scraper.py:113-131 | each outcome exactly when the code returns it. A document comes back for a 200 answer whose lower-cased content type contains `application/json` and whose body parses. A 404 gives 404. Any status other than 200 and 404 gives that status. A 200 answer whose content type lacks `application/json` gives `not_json`. One that has it but whose body does not parse gives `json_decode_error`. No answer gives a network error |
| Scraper.Classify | database/scripts/scraper.py:161-171 | 404 and non-JSON answers are misses; a fetched document is a hit with that document; every other outcome is an error |
| Scraper.ShouldUpdate | database/scripts/scraper.py:85-94 | a missing file or one that does not parse is always written |
| Scraper.ShouldUpdateIffChanged | database/scripts/scraper.py:85-94 | over a readable saved advisory, the answer is written exactly when it differs from the saved one in more than the order of keys, at any depth |
| Json.Canonical | database/scripts/scraper.py:80-82 | the key-sorted form keeps the kind of every value and the length of every list and dict, and leaves scalars as they are |
| Json.CanonicalEqualIff | database/scripts/scraper.py:80-82 | for documents whose dicts have distinct keys, the `stable_hash` inputs are equal exactly when the documents are the same up to the order of keys in every dict, at any depth |
| Json.CanonicalEqualIsSame | database/scripts/scraper.py:80-82 | equal key-sorted forms mean the same keys in every dict, with values that are again the same up to key order |
| Json.SameIsCanonicalEqual | database/scripts/scraper.py:80-82 | documents that are the same up to key order at every depth have equal key-sorted forms |
| Json.CanonicalIgnoresKeyOrder | database/scripts/scraper.py:80-82 | the top-level case alone, without a distinct-keys assumption on nested dicts: two dicts with the same members in any order have the same key-sorted form |
| Json.CanonicalKeysSorted | database/scripts/scraper.py:81 | in the canonical form every object, at any depth, has its keys in ascending order |
| Scraper.Step | database/scripts/scraper.py:154-191 | one pass of the loop advances the probe number by one, and the miss count grows by one on a miss and is reset otherwise |
| Scraper.RunFrom | database/scripts/scraper.py:154 | for every web site of the model (a finite list of answers, then 404), the loop ends, with the miss count equal to the streak of consecutive misses that ends at the last probe, and that streak is at least 50 |
| Scraper.DownloadYear | database/scripts/scraper.py:138-200 | the loop's new and updated counts and the tree it leaves are those of the year's run |
| Scraper.ProbeOnce | database/scripts/scraper.py:155-191 | one pass of the loop body fetches reference `i`. A miss adds one to the miss count. An error adds one to the errors and resets the count. A fetched document resets the count and then is written and counted as new or updated, or counted as skipped. The result is the step function `Step` |
| Scraper.RunFromStep | database/scripts/scraper.py:154 | before 50 consecutive misses the loop takes one more step, and the miss count tracks the streak |
| Scraper.YearRunAccounted | database/scripts/scraper.py:161-191 | after a year's run, each counter (new, updated, skipped, errors) counts the probes of its kind, each judged against the tree before the run. Each probed file holds the fetched document when that probe wrote and is unchanged otherwise. No other file changes |
| Scraper.YearRunStops | database/scripts/scraper.py:154-171 | a year's scan stops right after the first run of exactly 50 consecutive misses; no earlier streak reached 50 (errors reset the count) |
| Scraper.YearRunLength | database/scripts/scraper.py:154 | how far a year's scan goes depends on the server's answers alone, not on the tree |
| Scraper.YearRunMirrors | database/scripts/scraper.py:177-185 | after the run, every advisory the server returned is on disk with the same `stable_hash` |
| Scraper.SecondRunQuiet | database/scripts/scraper.py:177-188 | running a year again against an unchanged server adds and updates nothing and leaves the tree as it is |
| Scraper.YearRunLocal | database/scripts/scraper.py:143-157 | a year's run changes no file outside its own year directory |
| Scraper.YearRunSameFiles | database/scripts/scraper.py:149-200 | a year's new and updated counts depend only on the files of its own directory |
| Scraper.Mirror | database/scripts/scraper.py:207-231 | a start year before 2000 or after the current year gives exit code 1, zero totals and an untouched tree. Otherwise the exit code is 0, and the totals and the tree are those of running every year from the start year to the current year in order |
| Scraper.MirrorYear | database/scripts/scraper.py:221-224 | one pass of `main`'s loop adds that year's new and updated counts to the totals and carries the tree forward |
| Scraper.NextYear | database/scripts/scraper.py:221-224 | the totals after one more year are the previous totals plus that year's counts, and the year's tree |
| Scraper.YearsIndependent | database/scripts/scraper.py:217-228 | the global totals are the sums of what each year's run reports against the tree as it was before any year ran, and no file outside the mirrored years' directories changes |
| Cve.MatchAtIff | database/scripts/scraper.py:56 | a match of length `m` starts at `p` exactly when `m` is 13 to 16, no word character stands just before or just after the window, and the window uppercased has the form `CVE-dddd-d{4,7}` |
| Cve.DelimitedIdIsExtracted | database/scripts/scraper.py:56-61 | every identifier in the blob, in any letter case, with no word character on either side, is in the extracted set |
| Cve.EightDigitsNoMatch | database/scripts/scraper.py:56 | eight digits after the year give no match: `CVE-2021-12345678` yields nothing |
| Cve.MatchTextIsCveId | database/scripts/scraper.py:56-61 | the uppercased text of every match has the form `CVE-dddd-d{4,7}` |
| Cve.NoMatchInside | database/scripts/scraper.py:56 | no match starts strictly inside another, so non-overlapping `findall` loses nothing |
| Cve.Extract | database/scripts/scraper.py:59-61 | every member of the extracted set is a well-formed uppercase CVE identifier |
| Cve.ExtractIsEveryMatch | database/scripts/scraper.py:56-61 | an identifier is extracted exactly when it is the uppercased text of a match at some position of the blob |
| Cve.ExtractedIsMatch | database/scripts/scraper.py:61 | every identifier the scan reports is the uppercased text of a match at or after the scan's start |
| Cve.MatchIsExtracted | database/scripts/scraper.py:61 | every match at or after the scan's start is reported |
| Cve.NoSkip | database/scripts/scraper.py:61 | the scan never jumps over the start of a match |
| Cve.ExtractIgnoresCase | database/scripts/scraper.py:56 | two blobs that differ only in letter case yield the same identifiers (`(?i)`) |
| Cve.ExtractUpper | database/scripts/scraper.py:61 | uppercasing the blob first changes nothing |
| Cve.CountCves | database/scripts/scraper.py:59-61 | `count_cves` is the number of distinct extracted identifiers, and at most the blob's length divided by 13 |
| Cve.ExtractFromBound | database/scripts/scraper.py:61 | each identifier reported from position `p` on uses at least 13 characters of the rest of the blob |
| Corpus.CveUnionMembers | database/scripts/CVE_counter.py:51-65 | an identifier is in `all_cves` exactly when some readable file of the listing contains it |
| Corpus.CveUnionOrderFree | database/scripts/CVE_counter.py:44 | `all_cves` does not depend on the order of the listing or on repeated files |
| CveIndex.CollectCves | database/scripts/CVE_counter.py:51-65 | the scan loop leaves `all_cves` equal to the union of the identifiers of the readable files; unreadable files are skipped |
| Order.SortedSet | database/scripts/CVE_counter.py:67 | `sorted(all_cves)` lists every member once, in strictly ascending order, and nothing else |
| Order.SortedUnique | database/build_first_seen.py:27 | two sequences sorted by one total order with the same elements and distinct keys are equal, so `sorted()` gives one answer |
| Order.SortBySorted | database/build_first_seen.py:27 | the sort orders its result by key |
| Order.StringLessOrder | database/scripts/CVE_counter.py:67 | Python's `<` on strings is a strict total order |
| Order.PathLessOrder | database/build_first_seen.py:27 | Python's `<` on paths (component by component) is a strict total order |
| CveIndex.IndexDocContents | database/scripts/CVE_counter.py:67-79 | the written index is a JSON list with one string per identifier, holding exactly the identifiers, in strictly ascending order |
| CveIndex.CveArrayCanonical | database/scripts/CVE_counter.py:23-25 | a list of strings is its own canonical form, so its `stable_hash` is that of the list itself |
| CveIndex.LoadExisting | database/scripts/CVE_counter.py:28-34 | a missing or unparseable index reads as `[]`; otherwise as the stored document |
| CveIndex.JsonLen | database/scripts/CVE_counter.py:81 | `len(old)` is defined exactly for a list, a dict or a string, and is its number of items, members or characters |
| CveIndex.Settle | database/scripts/CVE_counter.py:71-81 | no change is reported exactly when the hashes agree, and then nothing is written and the count is reported. Otherwise the sorted list is written; the run raises exactly when `len(old)` is undefined, and else reports the files scanned, the count and the delta |
| CveIndex.Rebuild | database/scripts/CVE_counter.py:58-81 | the scan, sort, load, compare, write and report steps produce the outcome defined by the specification function `Refresh`; when `len(old)` raises (the stored index is a number, a boolean or `null`), the new index has already been written |
| CveIndex.Compare | database/scripts/CVE_counter.py:71-81 | with the same `stable_hash`, nothing is written and the count is reported. Otherwise the sorted list is written and the delta is reported, or the run raises after the write when `len(old)` is undefined; the result is `Settle` |
| CveIndex.RefreshResult | database/scripts/CVE_counter.py:69-79 | afterwards the index reads back (up to `stable_hash`) as the sorted identifiers of the tree; the file was rewritten exactly when its previous content hashed differently |
| CveIndex.RefreshIdempotent | database/scripts/CVE_counter.py:71-74 | a second run over the same tree writes nothing and reports no change |
| CveIndex.RefreshDelta | database/scripts/CVE_counter.py:81 | the reported delta is the new list's size minus `len(old)`, and `len(old)` is defined whenever an update is reported |
| CveIndex.DeltaCountsAdded | database/scripts/CVE_counter.py:81 | when the previous index listed a subset of today's identifiers, the delta is the number of identifiers added |
| UniqueCves.Count | database/scripts/CVE_counter.py:41-89 | `main` stops with "No files found." on an empty listing, and otherwise runs the shared compare-then-write step |
| UniqueCves.EmptyTreeKeepsIndex | database/scripts/CVE_counter.py:47-49 | with no file, the index is left exactly as it was |
| UniqueCves.RunSettles | database/scripts/CVE_counter.py:67-79 | on a non-empty tree the index reads back as the sorted identifiers, and a second run writes nothing |
| CveCounter.CountersAgree | database/CVE_counter.py:41-80 | the standalone counter agrees with the mirror's own on every non-empty tree. On an empty tree it changes the index exactly when the stored index is not already `[]` |
| CveAdderField.Build | database/CVE_adder_field.py:16-44 | the written index is the sorted list of the tree's unique identifiers, whatever was there before. The printed counts are the number of files listed, unreadable ones included, and the number of identifiers |
| CveAdderField.BuildOrderFree | database/CVE_adder_field.py:20-34 | the written index does not depend on the order the walk lists the files in |
| CveAdderField.CounterAfterBuildQuiet | database/CVE_adder_field.py:34-39 | the standalone counter run after this writer over the same tree finds nothing to change |
| FirstSeen.ExtractDate | database/build_first_seen.py:14-21 | a date is found only in a dict; the call raises exactly when the document is not a dict and one of the four keys is `in` it, or `in` does not apply to it |
| FirstSeen.DateFromFirst | database/build_first_seen.py:14-21 | the lookup finds a value exactly when the document is a dict holding one of the keys; the value is the one under the first key of the list the dict holds |
| FirstSeen.DateFromRaised | database/build_first_seen.py:18-20 | the lookup raises exactly when the document is not a dict and some key is `in` it, or `in` cannot be applied to it |
| FirstSeen.DateOfDict | database/build_first_seen.py:14-21 | on a dict, `extract_date` never raises. It returns no date exactly when none of `date`, `publication_date`, `released`, `timestamp` is present; otherwise it returns the value of the first one present |
| FirstSeen.DateOfScalar | database/build_first_seen.py:18-19 | a number, a boolean or `null` makes `extract_date` raise |
| FirstSeen.DateOfList | database/build_first_seen.py:18-20 | a list raises exactly when one of the four key strings is among its elements, and gives no date otherwise |
| FirstSeen.DateOfText | database/build_first_seen.py:18-20 | a string raises exactly when one of the four keys is a substring of it, and gives no date otherwise |
| FirstSeen.Absorb | database/build_first_seen.py:50-55 | absorbing a file's identifiers keeps every existing entry unchanged and gives each new identifier the file's entry |
| FirstSeen.AbsorbAll | database/build_first_seen.py:50-55 | the loop over one file's identifiers, in any order, produces exactly that insert-if-absent update |
| FirstSeen.Build | database/build_first_seen.py:24-60 | `main`: sort the listing, stop on zero files, fold the files into the map, stop if `extract_date` raises, write the map; the result is the specification function `Run` |
| FirstSeen.CrashStops | database/build_first_seen.py:48 | once `extract_date` has raised, the run ends without writing, whatever files follow |
| FirstSeen.SeenAfterDefined | database/build_first_seen.py:40-48 | the run completes exactly when no readable file makes `extract_date` raise |
| FirstSeen.SeenAfter | database/build_first_seen.py:34-55 | the map's keys are exactly the identifiers in the readable files; unreadable files are skipped |
| FirstSeen.SeenAfterKeeps | database/build_first_seen.py:50-55 | an entry made after some prefix of the files survives every later file unchanged |
| FirstSeen.SeenAfterEarliest | database/build_first_seen.py:34-55 | each entry names the first file of the sequence that holds the identifier, with that file's stem and date; no earlier file holds it |
| FirstSeen.RunNoFiles | database/build_first_seen.py:28-32 | nothing is written exactly when the walk finds no file |
| FirstSeen.RunKeys | database/build_first_seen.py:27-55 | the written map has an entry for every identifier of every readable file, and for nothing else |
| FirstSeen.RunEarliest | database/build_first_seen.py:27-55 | each written entry comes from the first file in sorted path order that holds the identifier |
| FirstSeen.OrderedAscending | database/build_first_seen.py:27 | the files are taken in ascending path order |
| FirstSeen.RunOrderFree | database/build_first_seen.py:27 | the written map does not depend on the order the walk yields the files in |
| FirstSeen.ThousandthBeforeHundredFirst | database/build_first_seen.py:27 | "first" is path order: in a year with three-digit numbers, advisory 1000's file sorts before advisory 101's |

## Left out

- HTTP details are not modelled: the session, URL building, request headers and the 20-second timeout. Each probe's answer is an input, with three cases: no answer, or an HTTP status, a content type and a body that either parses or does not.
- Printed output is modelled only where it reports a count the run computed. These are the index counters' `unique CVEs` in both branches, with `files scanned` and `new today` on an update, and the two counts `CVE_adder_field.py` prints. The mirror's new and updated totals are modelled too.
- Left out are the log files and `info` lines. So are the progress percentages, the read-error messages, the fixed banners and `OUTPUT.resolve()`. The mirror's skipped and error counts are modelled, but their printed per-year summary is not. `count_cves` feeds only a log line, so it is modelled on its own (`Cve.CountCves`).
- The clock (`today`, the current year) and the `START_YEAR` environment variable are parameters.
- `json.dumps` is not modelled. The text a document serialises to is the parameter `dumps`, a function from a document to text. The effect of `ensure_ascii` and `indent` is folded into that function; neither appears in the model on its own.
- `stable_hash` is not modelled as SHA-256. Two documents have equal hashes exactly when their key-sorted canonical forms are equal, so hash collisions are not modelled. The two hash helpers differ in `ensure_ascii`; both are treated the same way.
- JSON numbers are integers only; floating point is left out.
- Duplicate keys in a JSON object are left out. `json.loads` keeps the last value, while `Json.Get` returns the first, so the model assumes distinct keys. `Json.CanonicalEqualIff` and `Scraper.ShouldUpdateIffChanged` state this assumption as `WellKeyed`: every dict in the document has distinct keys.
- The regex's `\d`, `\w`, `\b` and `.upper()` are taken over ASCII only. Python applies them to Unicode characters as well. Strings compare by character code. A `char` is a Unicode scalar value, so this is Python's code-point order on every plane; only the lone surrogates a Python `str` can hold fall outside it.
- Servers that never answer 50 misses in a row are left out. The source resets the miss count on every error, so against such a server, for instance one that raises a network error on every probe, `download_year`'s loop never ends. The model's web site answers 404 past a finite list, so it excludes such servers by construction. `Scraper.RunFrom`'s termination and `Scraper.YearRunStops` hold only under this convention.
- File-system failures are left out: write errors, permissions and disk space.
- Directory creation (`mkdir`) is left out.
- Which files `rglob("*.json")` finds is not modelled; the listing is an input.
- The first-seen map's date is not the `str()` rendering of the field: the model keeps the field's JSON value.
- The output map's serialised key order is left out: the map is a `map`.
- The first-seen builder reads no previous output. Re-running it on the same tree gives the same map, because `FirstSeen.Run` is a function of the listing alone.
- FirstSeen.RunOrderFree: stated for listings whose paths are distinct, which holds for any directory walk.
- The `requests.Session` context manager is left out, and so is `SystemExit`; `main`'s result is the returned exit code.
