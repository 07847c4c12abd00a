/** No data loss without atomic steps: any number of workers, each deciding on its own stale copy of a record. */
module ColdConcurrent {
  import opened Options
  import opened ColdTypes
  import opened ColdModel
  import opened Locations
  import opened Catalog
  import opened Manager
  import opened ColdStorage

  /** A worker's copy of a record's files, and the list it is rebuilding from the tag table. */
  datatype Worker = Worker(files: seq<CachedFile>, rebuilt: seq<CachedFile>)

  datatype World = World(rows: set<FileRow>, store: Store, workers: seq<Worker>)

  /** The smallest actions; those of different workers interleave in any order. The two tags of a file are read one after
      the other: with the cold URL as it is now comes a mark that was read at another moment, so that it may be anything.
      A worker may commit a record with any mixture of the files it loaded, however stale by now, and the files it has
      rebuilt. */
  datatype Micro =
    | Load(k: nat, r: RecordId)
    | Forget(k: nat)
    | ReadTags(k: nat, row: FileRow, mark: bool)
    | Commit(k: nat, r: RecordId, record: Record)
    | RemoveHotCopy(k: nat, i: nat, dry: bool, removable: string -> bool)
    | MarkRemoved(k: nat, i: nat, r: RecordId, force: bool)
    | RegisterCopy(r: RecordId, id: FileId, action: Action, url: string)
    | Appear(url: string)
    | Bookkeep(transfers: seq<Transfer>, requests: seq<Request>)

  /** The worker has decided, on its own copy, that the hot copy of that file can go. */
  predicate Clears(w: World, k: nat, i: nat) {
    && k < |w.workers| && i < |w.workers[k].files|
    && IsQos(w.workers[k].files[i], Archive) && IsQos(w.workers[k].files[i], Stage)
  }

  /** Nothing is assumed of what is registered. */
  ghost predicate Possible(w: World, m: Micro) {
    match m
    case Load(k, r) => k < |w.workers| && r in w.store.records
    case Forget(k) => k < |w.workers|
    case ReadTags(k, row, _) => k < |w.workers| && row in w.rows
    case Commit(k, r, record) =>
      k < |w.workers| && forall f | f in NamedFiles(record, "") :: f in w.workers[k].rebuilt || f in w.workers[k].files
    case RemoveHotCopy(k, i, _, _) => Clears(w, k, i)
    case MarkRemoved(k, i, _, _) => Clears(w, k, i)
    case RegisterCopy(_, _, _, _) => true
    case Appear(_) => true
    case Bookkeep(_, _) => true
  }

  function ReadFile(row: FileRow, tags: map<FileId, Tags>, mark: bool): CachedFile {
    CachedFile(row, Tags(TagsOf(tags, row.id).cold, mark), if mark then FileOnDemand else FileOnline)
  }

  function WithWorker(w: World, k: nat, worker: Worker): World
    requires k < |w.workers|
  {
    w.(workers := w.workers[k := worker])
  }

  ghost function After(w: World, m: Micro): World
    requires Possible(w, m)
  {
    var s := w.store;
    match m
    case Load(k, r) => WithWorker(w, k, Worker(NamedFiles(s.records[r], ""), w.workers[k].rebuilt))
    case Forget(k) => WithWorker(w, k, Worker(w.workers[k].files, []))
    case ReadTags(k, row, mark) =>
      WithWorker(w, k, w.workers[k].(rebuilt := w.workers[k].rebuilt + [ReadFile(row, s.tags, mark)]))
    case Commit(k, r, record) => w.(store := s.(records := s.records[r := record]))
    case RemoveHotCopy(k, i, dry, removable) => w.(store := RemoveHot(s, w.workers[k].files[i].row.uri, dry, removable))
    case MarkRemoved(k, i, r, force) =>
      w.(store := MarkHotDeleted(CatState(s, []), r, w.workers[k].files[i].row.id, force).1.store)
    case RegisterCopy(r, id, action, url) => w.(store := CopyAdded(CatState(s, []), r, id, action, url).store)
    case Appear(url) => w.(store := s.(disk := s.disk + {url}))
    case Bookkeep(transfers, requests) => w.(store := s.(transfers := transfers, requests := requests))
  }

  ghost predicate PossibleRun(w: World, steps: seq<Micro>)
    decreases |steps|
  {
    steps == [] || (Possible(w, steps[0]) && PossibleRun(After(w, steps[0]), steps[1..]))
  }

  ghost function End(w: World, steps: seq<Micro>): World
    requires PossibleRun(w, steps)
    decreases |steps|
  {
    if steps == [] then w else End(After(w, steps[0]), steps[1..])
  }

  // ---------- The tags: a removed file has a cold one ----------

  /** A claim of a cold copy, however old, is true of the tag table: that tag is never taken away. */
  ghost predicate ClaimHolds(rows: set<FileRow>, tags: map<FileId, Tags>, f: CachedFile) {
    f.row in rows && (f.tags.cold.Some? ==> f.row.id in tags && tags[f.row.id].cold.Some?)
  }

  ghost predicate ClaimsHold(w: World) {
    && (forall r | r in w.store.records :: forall f | f in NamedFiles(w.store.records[r], "") :: ClaimHolds(w.rows, w.store.tags, f))
    && (forall k | 0 <= k < |w.workers| :: forall f | f in w.workers[k].files :: ClaimHolds(w.rows, w.store.tags, f))
    && (forall k | 0 <= k < |w.workers| :: forall f | f in w.workers[k].rebuilt :: ClaimHolds(w.rows, w.store.tags, f))
  }

  ghost predicate MarksCovered(tags: map<FileId, Tags>) {
    forall id | id in tags && tags[id].hotDeleted :: tags[id].cold.Some?
  }

  ghost predicate TagsSafe(w: World) {
    ClaimsHold(w) && MarksCovered(w.store.tags)
  }

  /** Cold tags only ever come. */
  ghost predicate ColdGrows(tags: map<FileId, Tags>, tags': map<FileId, Tags>) {
    forall id | id in tags && tags[id].cold.Some? :: id in tags' && tags'[id].cold.Some?
  }

  lemma ClaimsStay(w: World, store': Store)
    requires ClaimsHold(w) && ColdGrows(w.store.tags, store'.tags) && store'.records == w.store.records
    ensures ClaimsHold(w.(store := store'))
  {
    hide NamedFiles;
    var w' := w.(store := store');
    forall r | r in w'.store.records
      ensures forall f | f in NamedFiles(w'.store.records[r], "") :: ClaimHolds(w'.rows, w'.store.tags, f) {
      forall f | f in NamedFiles(w.store.records[r], "") ensures ClaimHolds(w.rows, store'.tags, f) {
        assert ClaimHolds(w.rows, w.store.tags, f);
      }
    }
    forall k, f | 0 <= k < |w.workers| && f in w.workers[k].files ensures ClaimHolds(w.rows, store'.tags, f) {
      assert ClaimHolds(w.rows, w.store.tags, f);
    }
    forall k, f | 0 <= k < |w.workers| && f in w.workers[k].rebuilt ensures ClaimHolds(w.rows, store'.tags, f) {
      assert ClaimHolds(w.rows, w.store.tags, f);
    }
  }

  lemma ClaimOf(w: World, k: nat, i: nat)
    requires TagsSafe(w) && Clears(w, k, i)
    ensures var f := w.workers[k].files[i];
            f.row in w.rows && f.row.id in w.store.tags && w.store.tags[f.row.id].cold.Some?
  {
    hide NamedFiles, MarksCovered;
    var f := w.workers[k].files[i];
    assert f in w.workers[k].files;
    assert ClaimHolds(w.rows, w.store.tags, f);
  }

  lemma MarkKeeps(w: World, k: nat, i: nat, r: RecordId, force: bool)
    requires TagsSafe(w) && Clears(w, k, i)
    ensures TagsSafe(After(w, MarkRemoved(k, i, r, force)))
  {
    hide NamedFiles, ClaimsHold;
    ClaimOf(w, k, i);
    ClaimsStay(w, MarkHotDeleted(CatState(w.store, []), r, w.workers[k].files[i].row.id, force).1.store);
  }

  lemma RegisterKeeps(w: World, r: RecordId, id: FileId, action: Action, url: string)
    requires TagsSafe(w)
    ensures TagsSafe(After(w, RegisterCopy(r, id, action, url)))
  {
    hide NamedFiles, ClaimsHold;
    ClaimsStay(w, CopyAdded(CatState(w.store, []), r, id, action, url).store);
  }

  lemma WorkerKeeps(w: World, k: nat, worker: Worker)
    requires ClaimsHold(w) && k < |w.workers|
    requires forall f | f in worker.files + worker.rebuilt :: ClaimHolds(w.rows, w.store.tags, f)
    ensures ClaimsHold(WithWorker(w, k, worker))
  {
    hide NamedFiles, ClaimHolds;
    forall f | f in worker.files ensures ClaimHolds(w.rows, w.store.tags, f) {
      assert f in worker.files + worker.rebuilt;
    }
    forall f | f in worker.rebuilt ensures ClaimHolds(w.rows, w.store.tags, f) {
      assert f in worker.files + worker.rebuilt;
    }
  }

  lemma CommitKeeps(w: World, k: nat, r: RecordId, record: Record)
    requires ClaimsHold(w) && Possible(w, Commit(k, r, record))
    ensures ClaimsHold(After(w, Commit(k, r, record)))
  {
    hide NamedFiles, ClaimHolds;
  }

  lemma ReadClaim(w: World, row: FileRow, mark: bool)
    requires row in w.rows
    ensures ClaimHolds(w.rows, w.store.tags, ReadFile(row, w.store.tags, mark))
  {
  }

  /** Every action keeps it, whatever is registered and wherever copies are. */
  lemma AfterKeeps(w: World, m: Micro)
    requires TagsSafe(w) && Possible(w, m)
    ensures TagsSafe(After(w, m))
  {
    hide NamedFiles, ClaimHolds, MarksCovered, ReadFile;
    match m
    case Load(k, r) => WorkerKeeps(w, k, Worker(NamedFiles(w.store.records[r], ""), w.workers[k].rebuilt));
    case Forget(k) => WorkerKeeps(w, k, Worker(w.workers[k].files, []));
    case ReadTags(k, row, mark) =>
      ReadClaim(w, row, mark);
      WorkerKeeps(w, k, w.workers[k].(rebuilt := w.workers[k].rebuilt + [ReadFile(row, w.store.tags, mark)]));
    case Commit(k, r, record) => CommitKeeps(w, k, r, record);
    case RemoveHotCopy(k, i, dry, removable) => ClaimsStay(w, After(w, m).store);
    case MarkRemoved(k, i, r, force) => MarkKeeps(w, k, i, r, force);
    case RegisterCopy(r, id, action, url) => RegisterKeeps(w, r, id, action, url);
    case Appear(url) => ClaimsStay(w, After(w, m).store);
    case Bookkeep(transfers, requests) => ClaimsStay(w, After(w, m).store);
  }

  lemma {:induction false} RunKeeps(w: World, steps: seq<Micro>)
    requires TagsSafe(w) && PossibleRun(w, steps)
    ensures TagsSafe(End(w, steps))
    decreases |steps|
  {
    hide TagsSafe, After, Possible;
    if steps != [] {
      AfterKeeps(w, steps[0]);
      RunKeeps(After(w, steps[0]), steps[1..]);
    }
  }

  /** Nothing is archived or removed yet, and the cached records say so. */
  ghost predicate Imported(w: World) {
    && (forall row | row in w.rows :: row.id in w.store.tags)
    && (forall id | id in w.store.tags :: w.store.tags[id] == Tags(None, false))
    && (forall r | r in w.store.records ::
          forall f | f in NamedFiles(w.store.records[r], "") :: f.row in w.rows && f.tags.cold.None?)
    && (forall k | 0 <= k < |w.workers| :: w.workers[k] == Worker([], []))
  }

  lemma ImportedSafe(w: World)
    requires Imported(w)
    ensures TagsSafe(w)
  {
    hide NamedFiles;
  }

  /** No removed file without a cold tag, for any interleaving of any number of workers that decide on stale copies: this
      assumes nothing of URLs, of the storage, or of what is registered. */
  lemma RemovedFilesAreArchivedConcurrently(w0: World, steps: seq<Micro>, id: FileId)
    requires Imported(w0) && PossibleRun(w0, steps)
    ensures var t := TagsOf(End(w0, steps).store.tags, id); t.hotDeleted ==> t.cold.Some?
  {
    hide ClaimsHold;
    ImportedSafe(w0);
    RunKeeps(w0, steps);
  }

  // ---------- The copies: what they take of the table of locations ----------

  /** An archive copy is registered for a file under its translated URL, where there is one. */
  ghost predicate Faithful(c: seq<Location>, w: World, m: Micro) {
    match m
    case RegisterCopy(_, id, action, url) =>
      action == Archive ==>
        url in w.store.disk && exists row :: row in w.rows && row.id == id && Translates(c, row, url)
    case _ => true
  }

  predicate Translates(c: seq<Location>, row: FileRow, url: string) {
    Archivable(c, row.uri) && FindUrl(c, Archive, row.uri) == Some(url)
  }

  ghost predicate FaithfulRun(c: seq<Location>, w: World, steps: seq<Micro>)
    requires PossibleRun(w, steps)
    decreases |steps|
  {
    steps == [] || (Faithful(c, w, steps[0]) && FaithfulRun(c, After(w, steps[0]), steps[1..]))
  }

  /** Every file id belongs to one object version. */
  ghost predicate OneVersion(rows: set<FileRow>) {
    forall a, b | a in rows && b in rows && a.id == b.id :: a == b
  }

  /** A file that can be archived shares its hot URL with no other one, and its cold URL is the hot URL of no file that
      can be archived. */
  ghost predicate ApartRow(c: seq<Location>, rows: set<FileRow>, row: FileRow) {
    Archivable(c, row.uri) ==>
      && (forall other | other in rows && other.uri == row.uri :: other == row)
      && (forall other | other in rows && Archivable(c, other.uri) :: FindUrl(c, Archive, row.uri) != Some(other.uri))
  }

  ghost predicate UrlsApart(c: seq<Location>, rows: set<FileRow>) {
    forall row | row in rows :: ApartRow(c, rows, row)
  }

  /** A cold tag is the translated URL, and that copy is there; a file without one has its hot copy. */
  ghost predicate CopyKept(c: seq<Location>, w: World, row: FileRow) {
    && row.id in w.store.tags
    && var t := w.store.tags[row.id];
    && (t.cold.Some? ==> Translates(c, row, t.cold.value) && t.cold.value in w.store.disk)
    && (t.cold.None? ==> row.uri in w.store.disk)
  }

  ghost predicate CopiesKept(c: seq<Location>, w: World) {
    forall row | row in w.rows :: CopyKept(c, w, row)
  }

  lemma RemoveKeepsCopies(c: seq<Location>, w: World, k: nat, i: nat, dry: bool, removable: string -> bool)
    requires TagsSafe(w) && Clears(w, k, i) && UrlsApart(c, w.rows) && CopiesKept(c, w)
    ensures CopiesKept(c, After(w, RemoveHotCopy(k, i, dry, removable)))
  {
    hide TagsSafe, FindUrl, IsQos;
    ClaimOf(w, k, i);
    var f := w.workers[k].files[i];
    assert CopyKept(c, w, f.row) && ApartRow(c, w.rows, f.row);
    forall row | row in w.rows ensures CopyKept(c, After(w, RemoveHotCopy(k, i, dry, removable)), row) {
      assert CopyKept(c, w, row) && ApartRow(c, w.rows, row);
    }
  }

  lemma MarkKeepsCopies(c: seq<Location>, w: World, k: nat, i: nat, r: RecordId, force: bool)
    requires Clears(w, k, i) && CopiesKept(c, w)
    ensures CopiesKept(c, After(w, MarkRemoved(k, i, r, force)))
  {
    hide FindUrl, IsQos, Archivable;
    forall row | row in w.rows ensures CopyKept(c, After(w, MarkRemoved(k, i, r, force)), row) {
      assert CopyKept(c, w, row);
    }
  }

  lemma RegisterKeepsCopies(c: seq<Location>, w: World, r: RecordId, id: FileId, action: Action, url: string)
    requires OneVersion(w.rows) && CopiesKept(c, w) && Faithful(c, w, RegisterCopy(r, id, action, url))
    ensures CopiesKept(c, After(w, RegisterCopy(r, id, action, url)))
  {
    hide FindUrl, Archivable;
    forall row | row in w.rows ensures CopyKept(c, After(w, RegisterCopy(r, id, action, url)), row) {
      assert CopyKept(c, w, row);
    }
  }

  /** The tag table stays, and nothing leaves the storage. */
  lemma SameCopies(c: seq<Location>, w: World, w': World)
    requires CopiesKept(c, w) && w'.rows == w.rows && w'.store.tags == w.store.tags && w.store.disk <= w'.store.disk
    ensures CopiesKept(c, w')
  {
    hide FindUrl, Archivable;
    forall row | row in w.rows ensures CopyKept(c, w', row) {
      assert CopyKept(c, w, row);
    }
  }

  lemma AfterKeepsCopies(c: seq<Location>, w: World, m: Micro)
    requires TagsSafe(w) && OneVersion(w.rows) && UrlsApart(c, w.rows) && CopiesKept(c, w)
    requires Possible(w, m) && Faithful(c, w, m)
    ensures CopiesKept(c, After(w, m)) && After(w, m).rows == w.rows
  {
    hide TagsSafe, CopiesKept, UrlsApart, OneVersion, NamedFiles;
    match m
    case RemoveHotCopy(k, i, dry, removable) => RemoveKeepsCopies(c, w, k, i, dry, removable);
    case MarkRemoved(k, i, r, force) => MarkKeepsCopies(c, w, k, i, r, force);
    case RegisterCopy(r, id, action, url) => RegisterKeepsCopies(c, w, r, id, action, url);
    case _ => SameCopies(c, w, After(w, m));
  }

  lemma {:induction false} RunKeepsCopies(c: seq<Location>, w: World, steps: seq<Micro>)
    requires TagsSafe(w) && OneVersion(w.rows) && UrlsApart(c, w.rows) && CopiesKept(c, w)
    requires PossibleRun(w, steps) && FaithfulRun(c, w, steps)
    ensures CopiesKept(c, End(w, steps)) && End(w, steps).rows == w.rows
    decreases |steps|
  {
    hide TagsSafe, CopiesKept, UrlsApart, OneVersion, After, Possible, Faithful;
    if steps != [] {
      AfterKeeps(w, steps[0]);
      AfterKeepsCopies(c, w, steps[0]);
      RunKeepsCopies(c, After(w, steps[0]), steps[1..]);
    }
  }

  /** A tagged cold copy is there, and so is the hot copy of every file without a cold tag. */
  ghost predicate Kept(w: World, row: FileRow) {
    && row.id in w.store.tags
    && var t := w.store.tags[row.id];
    && (t.hotDeleted ==> t.cold.Some?)
    && (t.cold.Some? ==> t.cold.value in w.store.disk)
    && (t.cold.None? ==> row.uri in w.store.disk)
  }

  ghost predicate HotCopies(w: World) {
    forall row | row in w.rows :: row.uri in w.store.disk
  }

  lemma NoDataLossConcurrently(c: seq<Location>, w0: World, steps: seq<Micro>, row: FileRow)
    requires Imported(w0) && OneVersion(w0.rows) && HotCopies(w0) && UrlsApart(c, w0.rows)
    requires PossibleRun(w0, steps) && FaithfulRun(c, w0, steps) && row in w0.rows
    ensures Kept(End(w0, steps), row)
  {
    hide ClaimsHold, UrlsApart, OneVersion, NamedFiles;
    ImportedSafe(w0);
    RunKeeps(w0, steps);
    RunKeepsCopies(c, w0, steps);
    assert CopyKept(c, End(w0, steps), row);
  }

  // ---------- The exact condition ----------

  /** A world that some run reaches in which archive copies are registered faithfully. */
  ghost predicate Reaches(c: seq<Location>, w: World, w': World) {
    exists steps :: RunsTo(c, w, steps, w')
  }

  ghost predicate RunsTo(c: seq<Location>, w: World, steps: seq<Micro>, w': World) {
    PossibleRun(w, steps) && FaithfulRun(c, w, steps) && End(w, steps) == w'
  }

  lemma RunsNowhere(c: seq<Location>, w: World)
    ensures RunsTo(c, w, [], w)
  {
  }

  lemma {:induction false} RunsOn(c: seq<Location>, w: World, steps: seq<Micro>, w1: World, m: Micro)
    requires RunsTo(c, w, steps, w1) && Possible(w1, m) && Faithful(c, w1, m)
    ensures RunsTo(c, w, steps + [m], After(w1, m))
    decreases |steps|
  {
    hide Possible, Faithful, After;
    if steps == [] {
      assert steps + [m] == [m] && [m][1..] == [];
      RunsNowhere(c, After(w1, m));
    } else {
      RunsOn(c, After(w, steps[0]), steps[1..], w1, m);
      assert (steps + [m])[1..] == steps[1..] + [m];
    }
  }

  lemma ReachesNext(c: seq<Location>, w: World, w1: World, m: Micro)
    requires Reaches(c, w, w1) && Possible(w1, m) && Faithful(c, w1, m)
    ensures Reaches(c, w, After(w1, m))
  {
    hide RunsTo, Possible, Faithful, After;
    var steps :| RunsTo(c, w, steps, w1);
    RunsOn(c, w, steps, w1, m);
  }

  lemma ReachesSelf(c: seq<Location>, w: World)
    ensures Reaches(c, w, w)
  {
    hide RunsTo;
    RunsNowhere(c, w);
  }

  lemma OneFile(f: CachedFile)
    ensures NamedFiles(Record([f], [], map[], Online), "") == [f]
  {
  }

  /** A worker reads that a file is archived, and removes its hot copy. */
  lemma TakesHotCopy(c: seq<Location>, w0: World, w: World, row: FileRow) returns (w': World)
    requires Reaches(c, w0, w) && |w.workers| > 0 && row in w.rows && TagsOf(w.store.tags, row.id).cold.Some?
    ensures Reaches(c, w0, w') && w'.store.tags == w.store.tags && w'.store.disk == w.store.disk - {row.uri}
  {
    hide Reaches, NamedFiles;
    var f := ReadFile(row, w.store.tags, false);
    var record := Record([f], [], map[], Online);
    OneFile(f);
    ReachesNext(c, w0, w, ReadTags(0, row, false));
    var w1 := After(w, ReadTags(0, row, false));
    assert f in w1.workers[0].rebuilt;
    ReachesNext(c, w0, w1, Commit(0, 0, record));
    var w2 := After(w1, Commit(0, 0, record));
    ReachesNext(c, w0, w2, Load(0, 0));
    var w3 := After(w2, Load(0, 0));
    assert w3.workers[0].files == [f];
    var m := RemoveHotCopy(0, 0, false, (u: string) => true);
    ReachesNext(c, w0, w3, m);
    w' := After(w3, m);
  }

  lemma Registers(c: seq<Location>, w0: World, w: World, row: FileRow, url: string) returns (w': World)
    requires Reaches(c, w0, w) && row in w.rows && row.id in w.store.tags && Translates(c, row, url) && url in w.store.disk
    ensures Reaches(c, w0, w')
    ensures w' == w.(store := w.store.(tags := w.store.tags[row.id := w.store.tags[row.id].(cold := Some(url))]))
  {
    hide Reaches, FindUrl, Archivable;
    var m := RegisterCopy(0, row.id, Archive, url);
    assert Faithful(c, w, m);
    ReachesNext(c, w0, w, m);
    w' := After(w, m);
  }

  lemma Appears(c: seq<Location>, w0: World, w: World, url: string) returns (w': World)
    requires Reaches(c, w0, w)
    ensures Reaches(c, w0, w') && w' == w.(store := w.store.(disk := w.store.disk + {url}))
  {
    hide Reaches;
    ReachesNext(c, w0, w, Appear(url));
    w' := After(w, Appear(url));
  }

  lemma ImportedRow(w: World, row: FileRow)
    requires Imported(w) && row in w.rows
    ensures row.id in w.store.tags && w.store.tags[row.id] == Tags(None, false)
  {
    hide NamedFiles;
  }

  /** Two files share a hot URL that can be archived: the hot copy of one goes with the other's. */
  lemma SharedIsLost(c: seq<Location>, w0: World, row: FileRow, other: FileRow) returns (w: World)
    requires Imported(w0) && OneVersion(w0.rows) && |w0.workers| > 0 && row in w0.rows && other in w0.rows
    requires Archivable(c, row.uri) && other.uri == row.uri && other != row
    ensures Reaches(c, w0, w) && !Kept(w, other)
  {
    assert other.id != row.id;
    hide Reaches, Imported, OneVersion, FindUrl;
    var cold := FindUrl(c, Archive, row.uri).value;
    ImportedRow(w0, row);
    ImportedRow(w0, other);
    ReachesSelf(c, w0);
    var w1 := Appears(c, w0, w0, cold);
    var w2 := Registers(c, w0, w1, row, cold);
    w := TakesHotCopy(c, w0, w2, row);
  }

  /** The cold URL of a file is the hot URL of one that can be archived: the cold copy goes with that hot copy. */
  lemma OverlapIsLost(c: seq<Location>, w0: World, row: FileRow, other: FileRow) returns (w: World)
    requires Imported(w0) && OneVersion(w0.rows) && |w0.workers| > 0 && row in w0.rows && other in w0.rows
    requires other.uri in w0.store.disk
    requires Archivable(c, row.uri) && Archivable(c, other.uri) && FindUrl(c, Archive, row.uri) == Some(other.uri)
    ensures Reaches(c, w0, w) && !Kept(w, row)
  {
    assert other.id == row.id ==> other == row;
    hide Reaches, Imported, OneVersion, FindUrl;
    var away := FindUrl(c, Archive, other.uri).value;
    ImportedRow(w0, row);
    ImportedRow(w0, other);
    ReachesSelf(c, w0);
    var w1 := Appears(c, w0, w0, away);
    var w2 := Registers(c, w0, w1, row, other.uri);
    var w3 := Registers(c, w0, w2, other, away);
    w := TakesHotCopy(c, w0, w3, other);
  }

  ghost predicate AllKept(w: World, rows: set<FileRow>) {
    forall row | row in rows :: Kept(w, row)
  }

  lemma KeptWhenApart(c: seq<Location>, w0: World, w: World)
    requires Imported(w0) && OneVersion(w0.rows) && HotCopies(w0) && UrlsApart(c, w0.rows) && Reaches(c, w0, w)
    ensures AllKept(w, w0.rows)
  {
    hide Imported, OneVersion, HotCopies, UrlsApart, Kept;
    var steps :| RunsTo(c, w0, steps, w);
    forall row | row in w0.rows ensures Kept(w, row) {
      NoDataLossConcurrently(c, w0, steps, row);
    }
  }

  lemma LosesSome(c: seq<Location>, w0: World, row: FileRow) returns (w: World)
    requires Imported(w0) && OneVersion(w0.rows) && HotCopies(w0) && |w0.workers| > 0
    requires row in w0.rows && !ApartRow(c, w0.rows, row)
    ensures Reaches(c, w0, w) && !AllKept(w, w0.rows)
  {
    hide Imported, OneVersion, FindUrl, Kept, Reaches;
    if other :| other in w0.rows && other.uri == row.uri && other != row {
      w := SharedIsLost(c, w0, row, other);
    } else {
      var other :| other in w0.rows && Archivable(c, other.uri) && FindUrl(c, Archive, row.uri) == Some(other.uri);
      w := OverlapIsLost(c, w0, row, other);
    }
  }

  /** No data loss without atomic steps, exactly: from imported files, every run keeps every file if and only if all hot
      copies are there in the beginning and the URLs are apart. That staging leads back home is not needed here: a file
      with a cold copy counts as kept. */
  lemma NoDataLossConcurrentlyExactly(c: seq<Location>, w0: World)
    requires Imported(w0) && OneVersion(w0.rows) && |w0.workers| > 0
    ensures (forall w | Reaches(c, w0, w) :: AllKept(w, w0.rows)) <==> HotCopies(w0) && UrlsApart(c, w0.rows)
  {
    hide Imported, OneVersion, ApartRow, Reaches, Kept;
    if HotCopies(w0) && UrlsApart(c, w0.rows) {
      forall w | Reaches(c, w0, w) ensures AllKept(w, w0.rows) {
        KeptWhenApart(c, w0, w);
      }
    } else if row :| row in w0.rows && row.uri !in w0.store.disk {
      ReachesSelf(c, w0);
      assert !Kept(w0, row) by { MissingAtFirst(w0, row); }
    } else {
      var row :| row in w0.rows && !ApartRow(c, w0.rows, row);
      var w := LosesSome(c, w0, row);
    }
  }

  lemma MissingAtFirst(w: World, row: FileRow)
    requires Imported(w) && row in w.rows && row.uri !in w.store.disk
    ensures !Kept(w, row)
  {
    ImportedRow(w, row);
  }
}
