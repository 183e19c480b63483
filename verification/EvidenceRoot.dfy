/** A ledger root: every ledger file under one directory, verified together. */
module EvidenceRoot {
  import opened Prelude
  import Sorting
  import opened EvidenceRecord
  import opened EvidenceLedger

  /** The files under the root, by path relative to it. */
  type Disk = map<string, string>

  /** The verified records of each ledger, by path. */
  type Root = map<string, seq<Record>>

  datatype LedgerFile = LedgerFile(path: string, records: seq<Record>, head: string)

  function LedgerSuffix(): string {
    ".acceptance.ndjson"
  }

  predicate IsLedgerPath(path: string) {
    |path| >= |LedgerSuffix()| && path[|path| - |LedgerSuffix()|..] == LedgerSuffix()
  }

  function LedgerPaths(disk: Disk): set<string> {
    set p | p in disk && IsLedgerPath(p)
  }

  /** `{ledger.path: ledger for ledger in files}`: a later file replaces an earlier one of the same path. */
  function AsRoot(files: seq<LedgerFile>): Root {
    if files == [] then map[]
    else AsRoot(files[..|files|-1])[files[|files|-1].path := files[|files|-1].records]
  }

  /** What `read_ledger_root` promises of the list it returns. */
  ghost predicate Listed(files: seq<LedgerFile>) {
    && (forall i, j :: 0 <= i < j < |files| ==> Less(files[i].path, files[j].path))
    && (forall i :: 0 <= i < |files| ==> files[i].head == Head(files[i].records))
  }

  /** The record at position `i` of the ledger at `p` has this id. */
  ghost predicate IdAt(root: Root, p: string, i: nat, id: string) {
    p in root && i < |root[p]| && root[p][i].Id() == id
  }

  ghost predicate DistinctIds(root: Root) {
    forall p, i, q, j, id :: IdAt(root, p, i, id) && IdAt(root, q, j, id) ==> p == q && i == j
  }

  /** Every ledger is a verified chain, and no two records share an id. */
  ghost predicate Sound(c: Codec, root: Root) {
    (forall p :: p in root ==> Chained(c, root[p])) && DistinctIds(root)
  }

  /** Every line and every file is within the sizes a read allows. */
  ghost predicate Fits(c: Codec, root: Root) {
    forall p :: p in root ==> LinesFit(c, root[p]) && |Render(c, root[p])| <= MAX_LEDGER_BYTES
  }

  /** The disk holds exactly these ledgers. */
  ghost predicate Stores(c: Codec, disk: Disk, root: Root) {
    && LedgerPaths(disk) == root.Keys
    && forall p :: p in root ==> disk[p] == Render(c, root[p])
  }

  ghost predicate Reads(c: Codec, disk: Disk, root: Root) {
    Stores(c, disk, root) && Sound(c, root) && Fits(c, root)
  }

  /** One disk holds at most one root. */
  lemma ReadingIsUnique(c: Codec, disk: Disk, root: Root, other: Root)
    requires FaithfulJson(c) && Stores(c, disk, root) && Stores(c, disk, other)
    ensures root == other
  {
    forall p | p in root ensures root[p] == other[p] {
      RenderIsInjective(c, root[p], other[p]);
    }
  }

  /** `sorted(found)`: the ledger paths in ascending order. */
  method SortPaths(paths: set<string>) returns (sorted: seq<string>)
    ensures StrictlyAscending(sorted)
    ensures forall p :: p in sorted <==> p in paths
  {
    Sorting.LessIsStrictOrder();
    sorted := Sorting.Sort(Less, paths);
  }

  lemma AsRootAppend(files: seq<LedgerFile>, file: LedgerFile)
    ensures AsRoot(files + [file]) == AsRoot(files)[file.path := file.records]
  {
    assert (files + [file])[..|files|] == files;
  }

  ghost predicate FreshIds(records: seq<Record>, seen: set<string>) {
    && (forall i :: 0 <= i < |records| ==> records[i].Id() !in seen)
    && (forall i, j :: 0 <= i < j < |records| ==> records[i].Id() != records[j].Id())
  }

  function Ids(records: seq<Record>): set<string> {
    set r | r in records :: r.Id()
  }

  /** The inner loop of `read_ledger_root`: None when an id was seen before. */
  method AddIds(records: seq<Record>, seen: set<string>) returns (result: Option<set<string>>)
    ensures result.Some? <==> FreshIds(records, seen)
    ensures result.Some? ==> result.value == seen + Ids(records)
  {
    var all := seen;
    for n := 0 to |records|
      invariant FreshIds(records[..n], seen)
      invariant all == seen + Ids(records[..n])
    {
      if records[n].Id() in all {
        return None;
      }
      assert records[..n + 1] == records[..n] + [records[n]];
      all := all + {records[n].Id()};
    }
    assert records[..|records|] == records;
    return Some(all);
  }

  /** Every id in a root. */
  ghost predicate SeenIn(seen: set<string>, root: Root) {
    && (forall p, i, id :: IdAt(root, p, i, id) ==> id in seen)
    && (forall id :: id in seen ==> exists p, i :: IdAt(root, p, i, id))
  }

  /** A ledger with fresh ids keeps the ids of a root distinct. */
  lemma AddLedger(root: Root, path: string, records: seq<Record>, seen: set<string>)
    requires DistinctIds(root) && path !in root && SeenIn(seen, root) && FreshIds(records, seen)
    ensures DistinctIds(root[path := records])
    ensures SeenIn(seen + Ids(records), root[path := records])
  {
    var after: Root := root[path := records];
    forall p, i: nat, id | IdAt(after, p, i, id)
      ensures p == path ==> i < |records| && records[i].Id() == id && records[i] in records
      ensures p != path ==> IdAt(root, p, i, id)
    {
    }
    forall p, i: nat, id | IdAt(root, p, i, id) ensures IdAt(after, p, i, id) {
    }
    forall i: nat | i < |records| ensures IdAt(after, path, i, records[i].Id()) {
    }
    assert SeenIn(seen + Ids(records), after);
    forall p, i: nat, q, j: nat, id | IdAt(after, p, i, id) && IdAt(after, q, j, id) ensures p == q && i == j {
      if p == path && q == path {
        assert !(i < j) && !(j < i);
      } else if p != path && q != path {
        assert IdAt(root, p, i, id) && IdAt(root, q, j, id);
      }
    }
  }

  lemma SharedIdRefutes(c: Codec, disk: Disk, part: Root, path: string, records: seq<Record>, seen: set<string>, root: Root)
    requires FaithfulJson(c)
    requires path in LedgerPaths(disk) && path !in part && disk[path] == Render(c, records)
    requires forall p :: p in part ==> p in LedgerPaths(disk) && disk[p] == Render(c, part[p])
    requires SeenIn(seen, part) && !FreshIds(records, seen)
    ensures !(Stores(c, disk, root) && DistinctIds(root))
  {
    if Stores(c, disk, root) && DistinctIds(root) {
      RenderIsInjective(c, records, root[path]);
      if i: nat :| i < |records| && records[i].Id() in seen {
        var p, j :| IdAt(part, p, j, records[i].Id());
        RenderIsInjective(c, part[p], root[p]);
        assert IdAt(root, p, j, records[i].Id()) && IdAt(root, path, i, records[i].Id());
      } else {
        var i: nat, j: nat :| i < j < |records| && records[i].Id() == records[j].Id();
        assert IdAt(root, path, i, records[i].Id()) && IdAt(root, path, j, records[i].Id());
      }
    }
  }

  /** A ledger the parser refuses leaves no root the disk could store. */
  lemma BadLedgerRefutes(c: Codec, disk: Disk, path: string)
    requires path in LedgerPaths(disk)
    requires |disk[path]| > MAX_LEDGER_BYTES
          || forall records :: Chained(c, records) && LinesFit(c, records) ==> disk[path] != Render(c, records)
    ensures forall root: Root :: !Reads(c, disk, root)
  {
    forall root: Root ensures !Reads(c, disk, root) {
      if Stores(c, disk, root) {
        BadLedgerIsNoPart(c, disk, path, root);
      }
    }
  }

  lemma BadLedgerIsNoPart(c: Codec, disk: Disk, path: string, root: Root)
    requires path in LedgerPaths(disk) && Stores(c, disk, root)
    requires |disk[path]| > MAX_LEDGER_BYTES
          || forall records :: Chained(c, records) && LinesFit(c, records) ==> disk[path] != Render(c, records)
    ensures !(Sound(c, root) && Fits(c, root))
  {
    hide Chained, LinesFit, DistinctIds;
    assert path in root.Keys;
    var records := root[path];
    assert disk[path] == Render(c, records);
    assert |Render(c, records)| > MAX_LEDGER_BYTES || !(Chained(c, records) && LinesFit(c, records));
  }

  /** `read_ledger`: one file within its size limit, parsed. */
  method ReadLedger(c: Codec, data: string) returns (result: Result<seq<Record>, EvidenceError>)
    ensures result.Success? ==>
      data == Render(c, result.value) && Chained(c, result.value) && LinesFit(c, result.value)
      && |data| <= MAX_LEDGER_BYTES
    ensures result.Failure? && FaithfulJson(c) ==>
      || |data| > MAX_LEDGER_BYTES
      || forall records :: Chained(c, records) && LinesFit(c, records) ==> data != Render(c, records)
  {
    if |data| > MAX_LEDGER_BYTES {
      return Failure(LedgerTooLarge);
    }
    result := ParseLedger(c, data);
  }

  /** The files listed so far are the first of the sorted paths. */
  ghost predicate ListsFirst(paths: seq<string>, files: seq<LedgerFile>) {
    && |files| <= |paths| && Listed(files)
    && (forall i :: 0 <= i < |files| ==> files[i].path == paths[i])
    && (forall p :: p in AsRoot(files) <==> p in paths[..|files|])
  }

  /** A sound part of what the disk holds. */
  ghost predicate ReadsPart(c: Codec, disk: Disk, root: Root, seen: set<string>) {
    && (forall p :: p in root ==> p in LedgerPaths(disk) && disk[p] == Render(c, root[p]))
    && Sound(c, root) && Fits(c, root)
    && SeenIn(seen, root)
  }

  ghost predicate ReadSoFar(c: Codec, disk: Disk, paths: seq<string>, files: seq<LedgerFile>, seen: set<string>) {
    ListsFirst(paths, files) && ReadsPart(c, disk, AsRoot(files), seen)
  }

  lemma ListNext(paths: seq<string>, files: seq<LedgerFile>, records: seq<Record>)
    requires StrictlyAscending(paths) && ListsFirst(paths, files) && |files| < |paths|
    ensures ListsFirst(paths, files + [LedgerFile(paths[|files|], records, Head(records))])
  {
    var path := paths[|files|];
    var file := LedgerFile(path, records, Head(records));
    var after := files + [file];
    AsRootAppend(files, file);
    assert paths[..|after|] == paths[..|files|] + [path];
    forall i | 0 <= i < |files| ensures Less(after[i].path, path) {
      assert after[i].path == paths[i];
    }
  }

  lemma ReadNext(c: Codec, disk: Disk, root: Root, seen: set<string>, path: string, records: seq<Record>)
    requires ReadsPart(c, disk, root, seen) && path !in root
    requires path in LedgerPaths(disk) && disk[path] == Render(c, records) && |disk[path]| <= MAX_LEDGER_BYTES
    requires Chained(c, records) && LinesFit(c, records) && FreshIds(records, seen)
    ensures ReadsPart(c, disk, root[path := records], seen + Ids(records))
  {
    hide Chained;
    AddLedger(root, path, records, seen);
  }

  lemma NotYetRead(c: Codec, disk: Disk, paths: seq<string>, files: seq<LedgerFile>, seen: set<string>)
    requires StrictlyAscending(paths) && ReadSoFar(c, disk, paths, files, seen) && |files| < |paths|
    ensures paths[|files|] !in AsRoot(files)
  {
    forall i | 0 <= i < |files| ensures paths[i] != paths[|files|] {
      LessIsTotal(paths[i], paths[|files|]);
    }
  }

  /** `read_ledger_root`: success is a sound root that the disk stores; failure means the disk stores none. */
  method ReadLedgerRoot(c: Codec, disk: Disk) returns (result: Result<seq<LedgerFile>, EvidenceError>)
    ensures result.Success? ==> Listed(result.value) && Reads(c, disk, AsRoot(result.value))
    ensures result.Failure? && FaithfulJson(c) ==> forall root: Root :: !Reads(c, disk, root)
  {
    hide Chained, LinesFit;
    var paths := SortPaths(LedgerPaths(disk));
    var files: seq<LedgerFile> := [];
    var seen: set<string> := {};
    for n := 0 to |paths|
      invariant |files| == n && ReadSoFar(c, disk, paths, files, seen)
    {
      var path := paths[n];
      assert path in paths && path in LedgerPaths(disk);
      var parsed := ReadLedger(c, disk[path]);
      if parsed.Failure? {
        if FaithfulJson(c) {
          BadLedgerRefutes(c, disk, path);
        }
        return Failure(parsed.error);
      }
      NotYetRead(c, disk, paths, files, seen);
      var ids := AddIds(parsed.value, seen);
      if ids.None? {
        if FaithfulJson(c) {
          forall root: Root ensures !Reads(c, disk, root) {
            SharedIdRefutes(c, disk, AsRoot(files), path, parsed.value, seen, root);
          }
        }
        return Failure(DuplicateId);
      }
      var file := LedgerFile(path, parsed.value, Head(parsed.value));
      ReadNext(c, disk, AsRoot(files), seen, path, parsed.value);
      ListNext(paths, files, parsed.value);
      AsRootAppend(files, file);
      seen := ids.value;
      files := files + [file];
    }
    WalkIsComplete(c, disk, paths, files, seen);
    return Success(files);
  }

  lemma WalkIsComplete(c: Codec, disk: Disk, paths: seq<string>, files: seq<LedgerFile>, seen: set<string>)
    requires ReadSoFar(c, disk, paths, files, seen) && |files| == |paths|
    requires forall p :: p in paths <==> p in LedgerPaths(disk)
    ensures Reads(c, disk, AsRoot(files))
  {
    assert paths[..|files|] == paths;
    assert AsRoot(files).Keys == LedgerPaths(disk);
  }
}
