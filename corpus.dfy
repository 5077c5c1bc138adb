/** The mirror on disk as the index builders see it: files named by their
    path, each either readable as a JSON document or not (missing encoding,
    malformed JSON), and the identifiers found across a listing of them. */
module Corpus {
  import opened Wrappers
  import opened Json
  import opened Cve

  /** What `json.loads(path.read_text())` gives for a file that exists. */
  datatype Stored = Unreadable | Readable(doc: Json)

  /** A path as its components, `["2024", "CERTFR-2024-AVI-0001.json"]`. */
  type Path = seq<string>

  /** The files under one directory tree: what each existing path holds. */
  type Store = map<Path, Stored>

  /** What is at `p`: nothing when the file does not exist. */
  function Lookup(store: Store, p: Path): Option<Stored>
  {
    if p in store then Some(store[p]) else None
  }

  /** One entry of a directory listing, with what reading it yields. */
  datatype File = File(path: Path, content: Stored)

  function FilePath(f: File): Path { f.path }

  /** The index of the last `.` in `name`, or -1 when it has none. */
  function LastDot(name: string): (r: int)
    ensures -1 <= r < |name|
    ensures r >= 0 ==> name[r] == '.'
    ensures forall k :: r < k < |name| ==> name[k] != '.'
    decreases |name|
  {
    if name == [] then -1
    else if name[|name| - 1] == '.' then |name| - 1
    else LastDot(name[..|name| - 1])
  }

  /** `Path.name`: the final component of a path. */
  function FinalName(path: Path): string
  {
    if path == [] then "" else path[|path| - 1]
  }

  /** `Path.stem`: the final component without its suffix. A suffix is the
      text from the last dot on, when that dot is neither the first nor the
      last character. */
  function Stem(path: Path): (r: string)
    ensures |r| <= |FinalName(path)| && r == FinalName(path)[..|r|]
    ensures r != FinalName(path) ==>
              && 0 < |r| < |FinalName(path)| - 1
              && FinalName(path)[|r|] == '.'
              && forall k :: |r| < k < |FinalName(path)| ==> FinalName(path)[k] != '.'
    ensures (forall k :: 0 < k < |FinalName(path)| - 1 ==> FinalName(path)[k] != '.')
            ==> r == FinalName(path)
    ensures r != FinalName(path) <==>
              exists k :: && 0 < k < |FinalName(path)| - 1
                          && FinalName(path)[k] == '.'
                          && forall j :: k < j < |FinalName(path)| ==> FinalName(path)[j] != '.'
  {
    var name := FinalName(path);
    var i := LastDot(name);
    if 0 < i < |name| - 1 then
      name[..i]
    else
      assert forall k :: 0 < k < |name| - 1 && name[k] == '.' ==> exists j :: k < j < |name| && name[j] == '.' by {
        forall k | 0 < k < |name| - 1 && name[k] == '.'
          ensures exists j :: k < j < |name| && name[j] == '.'
        {
          assert i != -1 && k < i;
        }
      }
      name
  }

  /** The advisory id a file is listed under is the reference it was saved
      as: `Path(".../<ref>.json").stem == ref`. */
  lemma StemOfJsonName(dir: Path, ref: string)
    requires ref != []
    ensures Stem(dir + [ref + ".json"]) == ref
  {
    var name := ref + ".json";
    assert (dir + [name])[|dir + [name]| - 1] == name;
    assert name[|ref|] == '.';
    assert LastDot(name) == |ref| by {
      assert name[..|name| - 1] == ref + ".jso";
      assert name[..|name| - 2] == ref + ".js";
      assert name[..|name| - 3] == ref + ".j";
      assert name[..|name| - 4] == ref + ".";
    }
    assert name[..|ref|] == ref;
  }

  /** The identifiers one file contributes: those in its serialised content,
      or none when it cannot be read. */
  function FileCves(f: File, dumps: Json -> string): set<string>
  {
    if f.content.Readable? then Extract(dumps(f.content.doc)) else {}
  }

  /** `all_cves` after `all_cves.update(found)` for every file of the listing. */
  function CveUnion(files: seq<File>, dumps: Json -> string): set<string>
  {
    if files == [] then {}
    else CveUnion(files[..|files| - 1], dumps) + FileCves(files[|files| - 1], dumps)
  }

  /** An identifier is in the union exactly when some file of the listing
      holds it. */
  lemma {:induction false} CveUnionMembers(files: seq<File>, dumps: Json -> string, x: string)
    ensures x in CveUnion(files, dumps) <==> exists k :: 0 <= k < |files| && x in FileCves(files[k], dumps)
    decreases |files|
  {
    if files != [] {
      var init, last := files[..|files| - 1], files[|files| - 1];
      CveUnionMembers(init, dumps, x);
      assert CveUnion(files, dumps) == CveUnion(init, dumps) + FileCves(last, dumps);
      if x in CveUnion(files, dumps) {
        if x in FileCves(last, dumps) {
          assert x in FileCves(files[|files| - 1], dumps);
        } else {
          var k :| 0 <= k < |init| && x in FileCves(init[k], dumps);
          assert files[k] == init[k];
        }
      } else {
        forall k | 0 <= k < |files| ensures x !in FileCves(files[k], dumps) {
          if k < |init| {
            assert files[k] == init[k];
          }
        }
      }
    }
  }

  /** The union does not depend on the order the directory walk yields the
      files in, nor on repeats. */
  lemma CveUnionOrderFree(a: seq<File>, b: seq<File>, dumps: Json -> string)
    requires forall f :: f in a <==> f in b
    ensures CveUnion(a, dumps) == CveUnion(b, dumps)
  {
    forall x ensures x in CveUnion(a, dumps) <==> x in CveUnion(b, dumps) {
      CveUnionMembers(a, dumps, x);
      CveUnionMembers(b, dumps, x);
      if exists k :: 0 <= k < |a| && x in FileCves(a[k], dumps) {
        var k :| 0 <= k < |a| && x in FileCves(a[k], dumps);
        assert a[k] in b;
        var j :| 0 <= j < |b| && b[j] == a[k];
      }
      if exists k :: 0 <= k < |b| && x in FileCves(b[k], dumps) {
        var k :| 0 <= k < |b| && x in FileCves(b[k], dumps);
        assert b[k] in a;
        var j :| 0 <= j < |a| && a[j] == b[k];
      }
    }
  }
}
