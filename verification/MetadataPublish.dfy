/** `publish_metadata_snapshot_cursor`: the current metadata of one path, with its files rewritten
    only when their fingerprint changed. */
module MetadataPublish {
  import opened Wrappers
  import opened RealmCatalog
  import opened MetadataFingerprint

  // ----- snapshots -----

  /** The outcome of one query: a value, or the status that says why there is none. */
  datatype Capability<T> = Ok(value: T) | NotOk(status: string)

  datatype JsonValue = JsonValue(summary: string, payload: string)
  datatype RenderValue = RenderValue(sha256: string, byteCount: nat, lineCount: nat, nonEmpty: bool)
  datatype StorageValue = StorageValue(storageBytes: nat, depositUgnot: nat)

  datatype Snapshot = Snapshot(
    kind: Kind, height: int, collectedAt: int, collectionStatus: string, endpoint: Option<int>, files: seq<File>,
    qdoc: Capability<JsonValue>, qpkg: Capability<JsonValue>, qfuncs: Capability<JsonValue>,
    qrender: Capability<RenderValue>, qstorage: Capability<StorageValue>)

  // ----- rows -----

  /** The value of the last success and the height it was observed at. */
  datatype Success<T> = Succeeded(value: T, height: int)

  datatype Column<T> = Column(status: string, kept: Option<Success<T>>)

  datatype Current = Current(
    kind: Kind, height: int, collectedAt: int, collectionStatus: string, endpoint: Option<int>, fingerprint: Bytes,
    qdoc: Column<JsonValue>, qpkg: Column<JsonValue>, qfuncs: Column<JsonValue>,
    qrender: Column<RenderValue>, qstorage: Column<StorageValue>)

  /** What is derived from one file: its kind, sizes, digest and declarations, and its imports. */
  datatype Details = Details(columns: string, imports: set<(string, Kind)>)

  datatype FileRow = FileRow(content: Bytes, columns: string)
  type ImportRow = (Bytes, string, Kind)

  datatype Store = Store(current: Option<Current>, files: map<Bytes, FileRow>, imports: set<ImportRow>)

  datatype Error = InvalidSnapshot | ParentNotFound | ParentKindMismatch | StaleSnapshot

  /** The digest and the analysis of a file are parameters. */
  datatype Functions = Functions(sha256: Bytes -> Bytes, describe: File -> Details)

  // ----- checks -----

  predicate DistinctNames(files: seq<File>) {
    forall i, j :: 0 <= i < j < |files| ==> files[i].name != files[j].name
  }

  predicate NotApplicable<T>(c: Capability<T>) { c.NotOk? && c.status == "not_applicable" }

  /** `prepare_metadata_snapshot`. `wellFormed` says that every single field and file passes its own checks. */
  predicate Acceptable(s: Snapshot, wellFormed: bool) {
    && wellFormed && s.height >= 1 && s.files != [] && DistinctNames(s.files) && Encodable(s.files)
    && (s.kind == Package ==> NotApplicable(s.qrender) && NotApplicable(s.qstorage))
  }

  predicate Stale(current: Option<Current>, s: Snapshot) {
    && current.Some?
    && (current.value.height > s.height ||
        (current.value.height == s.height && current.value.collectedAt > s.collectedAt))
  }

  function Refusal(current: Option<Current>, parent: Option<Kind>, s: Snapshot, wellFormed: bool): Option<Error> {
    if !Acceptable(s, wellFormed) then Some(InvalidSnapshot)
    else if parent.None? then Some(ParentNotFound)
    else if parent.value != s.kind then Some(ParentKindMismatch)
    else if Stale(current, s) then Some(StaleSnapshot)
    else None
  }

  /** A publish is accepted exactly if the snapshot is well formed, the catalog knows the path with this kind,
      and nothing later is published: not a greater height, nor a later time at the same height. */
  lemma PublishIff(current: Option<Current>, parent: Option<Kind>, s: Snapshot, wellFormed: bool)
    ensures Refusal(current, parent, s, wellFormed).None? <==>
      && wellFormed && s.height >= 1 && s.files != []
      && (forall i, j :: 0 <= i < j < |s.files| ==> s.files[i].name != s.files[j].name)
      && (forall file :: file in s.files ==>
            |file.name| < 18_446_744_073_709_551_616 && |file.content| < 18_446_744_073_709_551_616)
      && (s.kind == Package ==> s.qrender == NotOk("not_applicable") && s.qstorage == NotOk("not_applicable"))
      && parent == Some(s.kind)
      && (current.Some? ==>
            || current.value.height < s.height
            || (current.value.height == s.height && current.value.collectedAt <= s.collectedAt))
  {
  }

  /** Why a publish is refused. */
  lemma RefusedFor(current: Option<Current>, parent: Option<Kind>, s: Snapshot, wellFormed: bool)
    ensures var e, valid := Refusal(current, parent, s, wellFormed), Refusal(None, Some(s.kind), s, wellFormed).None?;
            && (e == Some(InvalidSnapshot) <==> !valid)
            && (e == Some(ParentNotFound) <==> valid && parent.None?)
            && (e == Some(ParentKindMismatch) <==> valid && parent.Some? && parent.value != s.kind)
            && (e == Some(StaleSnapshot) <==>
                  valid && parent == Some(s.kind) && Refusal(current, parent, s, wellFormed).Some?)
  {
  }

  // ----- what a publish leaves -----

  /** `_json_success_values`, `_render_success_values` and `_storage_success_values`: a success
      replaces what is kept, anything else keeps it. */
  function Kept<T>(c: Capability<T>, before: Option<Success<T>>, height: int): Option<Success<T>> {
    if c.Ok? then Some(Succeeded(c.value, height)) else before
  }

  function ColumnAfter<T>(c: Capability<T>, before: Option<Success<T>>, height: int): Column<T> {
    Column(if c.Ok? then "ok" else c.status, Kept(c, before, height))
  }

  function CurrentAfter(f: Functions, current: Option<Current>, s: Snapshot): Current {
    var c := current;
    Current(
      s.kind, s.height, s.collectedAt, s.collectionStatus, s.endpoint, f.sha256(Preimage(s.files)),
      ColumnAfter(s.qdoc, if c.Some? then c.value.qdoc.kept else None, s.height),
      ColumnAfter(s.qpkg, if c.Some? then c.value.qpkg.kept else None, s.height),
      ColumnAfter(s.qfuncs, if c.Some? then c.value.qfuncs.kept else None, s.height),
      ColumnAfter(s.qrender, if c.Some? then c.value.qrender.kept else None, s.height),
      ColumnAfter(s.qstorage, if c.Some? then c.value.qstorage.kept else None, s.height))
  }

  /** A column shows the status of this outcome, and its value and height if it is a success. */
  predicate ColumnIs<T(==)>(c: Capability<T>, before: Option<Success<T>>, height: int, column: Column<T>) {
    match c
    case Ok(value) => column.status == "ok" && column.kept == Some(Succeeded(value, height))
    case NotOk(status) => column.status == status && column.kept == before
  }

  /** The current row after a publish. */
  lemma CurrentIs(f: Functions, current: Option<Current>, s: Snapshot)
    ensures var c := CurrentAfter(f, current, s);
            && c.kind == s.kind && c.height == s.height && c.collectedAt == s.collectedAt
            && c.collectionStatus == s.collectionStatus && c.endpoint == s.endpoint
            && c.fingerprint == f.sha256(Preimage(s.files))
            && ColumnIs(s.qdoc, if current.Some? then current.value.qdoc.kept else None, s.height, c.qdoc)
            && ColumnIs(s.qpkg, if current.Some? then current.value.qpkg.kept else None, s.height, c.qpkg)
            && ColumnIs(s.qfuncs, if current.Some? then current.value.qfuncs.kept else None, s.height, c.qfuncs)
            && ColumnIs(s.qrender, if current.Some? then current.value.qrender.kept else None, s.height, c.qrender)
            && ColumnIs(s.qstorage, if current.Some? then current.value.qstorage.kept else None, s.height, c.qstorage)
  {
    hide Preimage;
  }

  /** The file rows of a collection. */
  function FileRows(f: Functions, files: seq<File>): (rows: map<Bytes, FileRow>)
    ensures forall name :: name in rows <==> exists i :: 0 <= i < |files| && files[i].name == name
  {
    if files == [] then map[]
    else
      var file := files[|files| - 1];
      FileRows(f, files[..|files| - 1])[file.name := FileRow(file.content, f.describe(file).columns)]
  }

  function ImportsOf(f: Functions, file: File): set<ImportRow> {
    set i | i in f.describe(file).imports :: (file.name, i.0, i.1)
  }

  function ImportRows(f: Functions, files: seq<File>): set<ImportRow> {
    if files == [] then {} else ImportRows(f, files[..|files| - 1]) + ImportsOf(f, files[|files| - 1])
  }

  /** The simple form: every publish rewrites the files. */
  function Rewritten(f: Functions, t: Store, s: Snapshot): Store {
    Store(Some(CurrentAfter(f, t.current, s)), FileRows(f, s.files), ImportRows(f, s.files))
  }

  /** The form the code has: the files stay when their fingerprint did not change. */
  function Published(f: Functions, t: Store, s: Snapshot): Store {
    if t.current.Some? && t.current.value.fingerprint == f.sha256(Preimage(s.files))
    then t.(current := Some(CurrentAfter(f, t.current, s)))
    else Rewritten(f, t, s)
  }

  // ----- the writer -----

  class MetadataStore {
    var current: Option<Current>
    var files: map<Bytes, FileRow>
    var imports: set<ImportRow>

    constructor ()
      ensures View() == Store(None, map[], {})
    {
      current, files, imports := None, map[], {};
    }

    ghost function View(): Store
      reads this
    {
      Store(current, files, imports)
    }

    /** Delete the file rows, which takes the imports with them, and insert the new ones. */
    method RewriteFiles(f: Functions, incoming: seq<File>)
      modifies this`files, this`imports
      requires DistinctNames(incoming)
      ensures files == FileRows(f, incoming) && imports == ImportRows(f, incoming)
    {
      files, imports := map[], {};
      for i := 0 to |incoming|
        invariant files == FileRows(f, incoming[..i]) && imports == ImportRows(f, incoming[..i])
      {
        var file := incoming[i];
        assert incoming[..i + 1][..i] == incoming[..i];
        files := files[file.name := FileRow(file.content, f.describe(file).columns)];
        imports := imports + ImportsOf(f, file);
      }
      assert incoming[..|incoming|] == incoming;
    }

    method Publish(f: Functions, parent: Option<Kind>, s: Snapshot, wellFormed: bool) returns (error: Option<Error>)
      modifies this
      ensures error == Refusal(old(current), parent, s, wellFormed)
      ensures View() == if error.Some? then old(View()) else Published(f, old(View()), s)
    {
      if !Acceptable(s, wellFormed) {
        return Some(InvalidSnapshot);
      }
      var fed := FingerprintInput(s.files);
      var fingerprint := f.sha256(fed.value);
      if parent.None? {
        return Some(ParentNotFound);
      }
      if parent.value != s.kind {
        return Some(ParentKindMismatch);
      }
      if Stale(current, s) {
        return Some(StaleSnapshot);
      }
      var rewrite := current.None? || current.value.fingerprint != fingerprint;
      current := Some(CurrentAfter(f, current, s));
      if rewrite {
        RewriteFiles(f, s.files);
      }
      return None;
    }
  }

  // ----- skipping refines rewriting -----

  /** The digest tells encodings apart. */
  ghost predicate CollisionFree(f: Functions) {
    forall a: Bytes, b: Bytes :: f.sha256(a) == f.sha256(b) ==> a == b
  }

  lemma {:induction false} RowOfFile(f: Functions, files: seq<File>, i: nat)
    requires DistinctNames(files) && i < |files|
    ensures files[i].name in FileRows(f, files)
    ensures FileRows(f, files)[files[i].name] == FileRow(files[i].content, f.describe(files[i]).columns)
  {
    var n := |files| - 1;
    if i < n {
      assert files[..n][i] == files[i];
      RowOfFile(f, files[..n], i);
    }
  }

  lemma {:induction false} ImportsMean(f: Functions, files: seq<File>, row: ImportRow)
    ensures row in ImportRows(f, files) <==> exists file :: file in files && row in ImportsOf(f, file)
  {
    if files != [] {
      var n := |files| - 1;
      ImportsMean(f, files[..n], row);
      assert files == files[..n] + [files[n]];
    }
  }

  /** The import rows are the imports of each file, under the file's name. */
  lemma ImportRowsAre(f: Functions, files: seq<File>, row: ImportRow)
    ensures row in ImportRows(f, files)
      <==> exists file :: file in files && file.name == row.0 && (row.1, row.2) in f.describe(file).imports
  {
    ImportsMean(f, files, row);
    forall file ensures row in ImportsOf(f, file) <==>
      file.name == row.0 && (row.1, row.2) in f.describe(file).imports {
      assert row == (row.0, row.1, row.2);
      if file.name == row.0 && (row.1, row.2) in f.describe(file).imports {
        assert (file.name, (row.1, row.2).0, (row.1, row.2).1) in ImportsOf(f, file);
      }
    }
  }

  lemma RowsAgree(f: Functions, a: seq<File>, b: seq<File>, name: Bytes)
    requires DistinctNames(a) && DistinctNames(b) && name in FileRows(f, a)
    requires forall file :: file in a ==> file in b
    ensures name in FileRows(f, b) && FileRows(f, b)[name] == FileRows(f, a)[name]
  {
    var i: nat :| i < |a| && a[i].name == name;
    assert a[i] in b;
    var j: nat :| j < |b| && b[j] == a[i];
    RowOfFile(f, a, i);
    RowOfFile(f, b, j);
  }

  /** The rows depend on the files only, not on their order. */
  lemma RowsIgnoreOrder(f: Functions, a: seq<File>, b: seq<File>)
    requires DistinctNames(a) && DistinctNames(b) && multiset(a) == multiset(b)
    ensures FileRows(f, a) == FileRows(f, b) && ImportRows(f, a) == ImportRows(f, b)
  {
    assert forall file :: file in a <==> file in multiset(a);
    assert forall file :: file in b <==> file in multiset(b);
    forall name
      ensures name in FileRows(f, a) <==> name in FileRows(f, b)
      ensures name in FileRows(f, a) ==> FileRows(f, a)[name] == FileRows(f, b)[name]
    {
      if name in FileRows(f, a) { RowsAgree(f, a, b, name); }
      if name in FileRows(f, b) { RowsAgree(f, b, a, name); }
    }
    forall row ensures row in ImportRows(f, a) <==> row in ImportRows(f, b) {
      ImportsMean(f, a, row);
      ImportsMean(f, b, row);
    }
  }

  /** The file tables are those of the collection that the fingerprint was computed from. */
  ghost predicate StoredFrom(f: Functions, t: Store, files: seq<File>) {
    && t.current.Some? && DistinctNames(files) && Encodable(files)
    && t.current.value.fingerprint == f.sha256(Preimage(files))
    && t.files == FileRows(f, files) && t.imports == ImportRows(f, files)
  }

  ghost predicate Consistent(f: Functions, t: Store) {
    if t.current.None? then t.files == map[] && t.imports == {} else exists files :: StoredFrom(f, t, files)
  }

  /** An unchanged fingerprint means that rewriting would not change a row. */
  lemma PublishedIsRewritten(f: Functions, t: Store, s: Snapshot, wellFormed: bool)
    requires CollisionFree(f) && Consistent(f, t) && Acceptable(s, wellFormed)
    ensures Published(f, t, s) == Rewritten(f, t, s)
    ensures StoredFrom(f, Published(f, t, s), s.files)
  {
    if t.current.Some? && t.current.value.fingerprint == f.sha256(Preimage(s.files)) {
      var files :| StoredFrom(f, t, files);
      SameBytesIffSameFiles(files, s.files);
      RowsIgnoreOrder(f, files, s.files);
    }
  }

  // ----- all runs -----

  datatype Attempt = Attempt(parent: Option<Kind>, snapshot: Snapshot, wellFormed: bool)

  function Step(f: Functions, t: Store, a: Attempt): Store {
    if Refusal(t.current, a.parent, a.snapshot, a.wellFormed).Some? then t else Published(f, t, a.snapshot)
  }

  function SimpleStep(f: Functions, t: Store, a: Attempt): Store {
    if Refusal(t.current, a.parent, a.snapshot, a.wellFormed).Some? then t else Rewritten(f, t, a.snapshot)
  }

  function Run(f: Functions, attempts: seq<Attempt>): Store {
    if attempts == [] then Store(None, map[], {})
    else Step(f, Run(f, attempts[..|attempts| - 1]), attempts[|attempts| - 1])
  }

  function SimpleRun(f: Functions, attempts: seq<Attempt>): Store {
    if attempts == [] then Store(None, map[], {})
    else SimpleStep(f, SimpleRun(f, attempts[..|attempts| - 1]), attempts[|attempts| - 1])
  }

  /** The snapshots that were accepted, in order. */
  function Accepted(f: Functions, attempts: seq<Attempt>): seq<Snapshot> {
    if attempts == [] then []
    else
      var before, a := attempts[..|attempts| - 1], attempts[|attempts| - 1];
      Accepted(f, before)
        + (if Refusal(Run(f, before).current, a.parent, a.snapshot, a.wellFormed).Some? then [] else [a.snapshot])
  }

  lemma {:induction false} RunIsConsistent(f: Functions, attempts: seq<Attempt>)
    requires CollisionFree(f)
    ensures Consistent(f, Run(f, attempts))
  {
    if attempts != [] {
      var before, a := attempts[..|attempts| - 1], attempts[|attempts| - 1];
      RunIsConsistent(f, before);
      var t := Run(f, before);
      if Refusal(t.current, a.parent, a.snapshot, a.wellFormed).None? {
        PublishedIsRewritten(f, t, a.snapshot, a.wellFormed);
      }
    }
  }

  /** After any sequence of publishes, skipping unchanged files leaves the same tables as always rewriting them. */
  lemma {:induction false} SkippingRefinesRewriting(f: Functions, attempts: seq<Attempt>)
    requires CollisionFree(f)
    ensures Run(f, attempts) == SimpleRun(f, attempts)
  {
    if attempts != [] {
      hide Consistent, Published, Rewritten, StoredFrom;
      var before, a := attempts[..|attempts| - 1], attempts[|attempts| - 1];
      SkippingRefinesRewriting(f, before);
      RunIsConsistent(f, before);
      var t := Run(f, before);
      if Refusal(t.current, a.parent, a.snapshot, a.wellFormed).None? {
        PublishedIsRewritten(f, t, a.snapshot, a.wellFormed);
      }
    }
  }

  /** The last success in a sequence of outcomes, with its height. */
  function LastSuccess<T>(outcomes: seq<(Capability<T>, int)>): Option<Success<T>> {
    if outcomes == [] then None
    else
      var (c, height) := outcomes[|outcomes| - 1];
      if c.Ok? then Some(Succeeded(c.value, height)) else LastSuccess(outcomes[..|outcomes| - 1])
  }

  function Outcomes<T>(snapshots: seq<Snapshot>, pick: Snapshot -> Capability<T>): seq<(Capability<T>, int)> {
    seq(|snapshots|, i requires 0 <= i < |snapshots| => (pick(snapshots[i]), snapshots[i].height))
  }

  /** What the current row must say after these accepted snapshots. */
  ghost predicate CurrentReflects(current: Option<Current>, accepted: seq<Snapshot>) {
    if accepted == [] then current.None?
    else
      var s := accepted[|accepted| - 1];
      && current.Some?
      && current.value.height == s.height && current.value.collectedAt == s.collectedAt && current.value.kind == s.kind
      && current.value.qdoc.kept == LastSuccess(Outcomes(accepted, (x: Snapshot) => x.qdoc))
      && current.value.qpkg.kept == LastSuccess(Outcomes(accepted, (x: Snapshot) => x.qpkg))
      && current.value.qfuncs.kept == LastSuccess(Outcomes(accepted, (x: Snapshot) => x.qfuncs))
      && current.value.qrender.kept == LastSuccess(Outcomes(accepted, (x: Snapshot) => x.qrender))
      && current.value.qstorage.kept == LastSuccess(Outcomes(accepted, (x: Snapshot) => x.qstorage))
  }

  /** What the file tables must hold. */
  ghost predicate FilesReflect(f: Functions, t: Store, accepted: seq<Snapshot>) {
    if accepted == [] then t.files == map[] && t.imports == {}
    else
      var s := accepted[|accepted| - 1];
      t.files == FileRows(f, s.files) && t.imports == ImportRows(f, s.files)
  }

  ghost predicate Reflects(f: Functions, t: Store, accepted: seq<Snapshot>) {
    CurrentReflects(t.current, accepted) && FilesReflect(f, t, accepted)
  }

  lemma KeptIsLast<T>(accepted: seq<Snapshot>, s: Snapshot, pick: Snapshot -> Capability<T>)
    ensures LastSuccess(Outcomes(accepted + [s], pick)) ==
      Kept(pick(s), LastSuccess(Outcomes(accepted, pick)), s.height)
    ensures LastSuccess(Outcomes([], pick)) == None
  {
    var more := Outcomes(accepted + [s], pick);
    assert more[..|more| - 1] == Outcomes(accepted, pick);
  }

  lemma CurrentReflectsNext(f: Functions, current: Option<Current>, accepted: seq<Snapshot>, s: Snapshot)
    requires CurrentReflects(current, accepted)
    ensures CurrentReflects(Some(CurrentAfter(f, current, s)), accepted + [s])
  {
    hide LastSuccess, Preimage;
    KeptIsLast(accepted, s, (x: Snapshot) => x.qdoc);
    KeptIsLast(accepted, s, (x: Snapshot) => x.qpkg);
    KeptIsLast(accepted, s, (x: Snapshot) => x.qfuncs);
    KeptIsLast(accepted, s, (x: Snapshot) => x.qrender);
    KeptIsLast(accepted, s, (x: Snapshot) => x.qstorage);
  }

  /** The current row does not depend on whether the files were rewritten. */
  lemma {:induction false} RunReflectsCurrent(f: Functions, attempts: seq<Attempt>)
    ensures CurrentReflects(Run(f, attempts).current, Accepted(f, attempts))
  {
    if attempts != [] {
      hide CurrentReflects, CurrentAfter, FileRows, ImportRows;
      var before, a := attempts[..|attempts| - 1], attempts[|attempts| - 1];
      RunReflectsCurrent(f, before);
      var t := Run(f, before);
      if Refusal(t.current, a.parent, a.snapshot, a.wellFormed).None? {
        CurrentReflectsNext(f, t.current, Accepted(f, before), a.snapshot);
      } else {
        assert Accepted(f, attempts) == Accepted(f, before);
      }
    } else {
      assert CurrentReflects(None, []);
    }
  }

  /** After any sequence of publishes the file and import rows are those of the last accepted
      snapshot, and each capability keeps the value and height of its last success. */
  lemma {:induction false} RunReflectsAccepted(f: Functions, attempts: seq<Attempt>)
    requires CollisionFree(f)
    ensures Reflects(f, Run(f, attempts), Accepted(f, attempts))
  {
    RunReflectsCurrent(f, attempts);
    if attempts != [] {
      hide CurrentReflects, Consistent, Published, StoredFrom;
      var before, a := attempts[..|attempts| - 1], attempts[|attempts| - 1];
      RunReflectsAccepted(f, before);
      RunIsConsistent(f, before);
      var t := Run(f, before);
      if Refusal(t.current, a.parent, a.snapshot, a.wellFormed).None? {
        PublishedIsRewritten(f, t, a.snapshot, a.wellFormed);
      } else {
        assert Accepted(f, attempts) == Accepted(f, before);
      }
    }
  }

  predicate NotAfter(a: Snapshot, b: Snapshot) {
    a.height < b.height || (a.height == b.height && a.collectedAt <= b.collectedAt)
  }

  /** Accepted snapshots are ordered by height and then by time. */
  lemma {:induction false} AcceptedInOrder(f: Functions, attempts: seq<Attempt>)
    ensures var s := Accepted(f, attempts); forall i, j :: 0 <= i < j < |s| ==> NotAfter(s[i], s[j])
  {
    if attempts != [] {
      hide Published, LastSuccess;
      var before := attempts[..|attempts| - 1];
      AcceptedInOrder(f, before);
      RunReflectsCurrent(f, before);
    }
  }

  lemma {:induction false} LastSuccessBelow<T>(outcomes: seq<(Capability<T>, int)>, height: int)
    requires forall i :: 0 <= i < |outcomes| ==> outcomes[i].1 <= height
    ensures LastSuccess(outcomes).Some? ==> LastSuccess(outcomes).value.height <= height
  {
    if outcomes != [] { LastSuccessBelow(outcomes[..|outcomes| - 1], height); }
  }

  /** No retained value is from above the observed height. */
  lemma SuccessNotAboveObserved(f: Functions, attempts: seq<Attempt>)
    ensures var c := Run(f, attempts).current;
            c.Some? ==>
              && NotAbove(c.value.qdoc, c.value.height) && NotAbove(c.value.qpkg, c.value.height)
              && NotAbove(c.value.qfuncs, c.value.height) && NotAbove(c.value.qrender, c.value.height)
              && NotAbove(c.value.qstorage, c.value.height)
  {
    hide Run, Accepted, FileRows, ImportRows, LastSuccess;
    var accepted := Accepted(f, attempts);
    RunReflectsCurrent(f, attempts);
    AcceptedInOrder(f, attempts);
    if accepted != [] {
      var height := accepted[|accepted| - 1].height;
      LastSuccessBelow(Outcomes(accepted, (x: Snapshot) => x.qdoc), height);
      LastSuccessBelow(Outcomes(accepted, (x: Snapshot) => x.qpkg), height);
      LastSuccessBelow(Outcomes(accepted, (x: Snapshot) => x.qfuncs), height);
      LastSuccessBelow(Outcomes(accepted, (x: Snapshot) => x.qrender), height);
      LastSuccessBelow(Outcomes(accepted, (x: Snapshot) => x.qstorage), height);
    }
  }

  predicate NotAbove<T>(c: Column<T>, height: int) { c.kept.Some? ==> c.kept.value.height <= height }
}
