/** Every operation of the catalog, the manager and the services keeps the invariant. */
module ColdPreservation {
  import opened ColdTypes
  import opened ColdModel
  import opened Locations
  import opened Catalog
  import opened Manager
  import opened Service
  import opened ColdInvariant

  // ---------- What a selection lists ----------

  /** Up-to-date entries for some of the rows, each file once. */
  ghost predicate Lists(files: seq<CachedFile>, rows: seq<FileRow>, tags: map<FileId, Tags>) {
    && (forall k | 0 <= k < |files| :: files[k].row in rows && files[k] == FreshFile(files[k].row, tags))
    && (forall j, k | 0 <= j < k < |files| :: files[j].row.id != files[k].row.id)
  }

  lemma {:induction false} IndexFilesList(rows: seq<IndexRow>, tags: map<FileId, Tags>, name: string)
    requires DistinctRows(IndexRows(rows))
    ensures Lists(IndexFiles(FreshIndices(rows, tags), name), IndexRows(rows), tags)
  {
    hide CountOnto, TotalSize;
    if rows != [] {
      var head, tail := rows[0].files, IndexRows(rows[1..]);
      DistinctHalves(head, tail);
      IndexFilesList(rows[1..], tags, name);
      assert FreshIndices(rows, tags)[1..] == FreshIndices(rows[1..], tags);
      var rest := IndexFiles(FreshIndices(rows[1..], tags), name);
      ListsJoin(head, tail, FreshFiles(head, tags), rest, tags);
      assert [] + rest == rest;
    }
  }

  lemma DistinctHalves(a: seq<FileRow>, b: seq<FileRow>)
    requires DistinctRows(a + b)
    ensures DistinctRows(a) && DistinctRows(b)
  {
    assert forall i | 0 <= i < |a| :: (a + b)[i] == a[i];
    assert forall i | 0 <= i < |b| :: (a + b)[|a| + i] == b[i];
  }

  lemma ListsJoin(a: seq<FileRow>, b: seq<FileRow>, x: seq<CachedFile>, y: seq<CachedFile>, tags: map<FileId, Tags>)
    requires DistinctRows(a + b) && Lists(x, a, tags) && Lists(y, b, tags)
    ensures Lists(x + y, a + b, tags) && Lists(y, a + b, tags)
  {
    forall j, k | 0 <= j < |x| && 0 <= k < |y| ensures x[j].row.id != y[k].row.id {
      assert x[j].row in a && y[k].row in b;
      var i :| 0 <= i < |a| && a[i] == x[j].row;
      var l :| 0 <= l < |b| && b[l] == y[k].row;
      assert (a + b)[i] == a[i] && (a + b)[|a| + l] == b[l];
    }
  }

  lemma NamedFilesList(s: Store, r: RecordId, name: string)
    requires OneVersion(s.layout) && r in s.layout && r in s.records && Agrees(s, r)
    ensures Lists(NamedFiles(s.records[r], name), Rows(s.layout[r]), s.tags)
  {
    var l, record := s.layout[r], s.records[r];
    var tail := IndexRows(l.indices);
    DistinctHalves(l.direct, tail);
    IndexFilesList(l.indices, s.tags, name);
    ListsJoin(l.direct, tail, record.files, IndexFiles(record.indices, name), s.tags);
    assert [] + IndexFiles(record.indices, name) == IndexFiles(record.indices, name);
  }

  lemma SelectionLists(s: Store, r: RecordId, limit: int, name: string)
    requires OneVersion(s.layout) && r in s.layout && r in s.records && Agrees(s, r)
    ensures Lists(SelectFiles(s.records[r], limit, name), Rows(s.layout[r]), s.tags)
  {
    NamedFilesList(s, r, name);
  }

  // ---------- Primitive updates ----------

  ghost predicate NoUnfinished(s: Store, id: FileId) {
    forall i | 0 <= i < |s.transfers| && !s.transfers[i].finished :: s.transfers[i].file != id
  }

  /** A change of one file's tags leaves the other records up to date. */
  lemma RetagCache(s: Store, t: Tags, disk: set<string>, r: RecordId, row: FileRow, q: RecordId)
    requires OneVersion(s.layout) && Holds(s.layout, r, row) && q != r && CacheSound(s, q)
    ensures CacheSound(s.(tags := s.tags[row.id := t], disk := disk), q)
  {
    var s' := s.(tags := s.tags[row.id := t], disk := disk);
    forall other | other in Rows(s.layout[q]) ensures TagsOf(s.tags, other.id) == TagsOf(s'.tags, other.id) {
      assert Holds(s.layout, q, other);
    }
    AgreesFrame(s, s', q);
    assert StagePending(s', q) == StagePending(s, q);
  }

  /** A retagged file that has a cold tag if it is removed, and no unfinished transfer, keeps the core. */
  lemma RetagCore(s: Store, t: Tags, disk: set<string>, r: RecordId, row: FileRow)
    requires Core(s) && Holds(s.layout, r, row) && NoUnfinished(s, row.id)
    requires t.hotDeleted ==> t.cold.Some?
    ensures Core(s.(tags := s.tags[row.id := t], disk := disk))
  {
    var tags := s.tags[row.id := t];
    forall i | 0 <= i < |s.transfers| && !s.transfers[i].finished
      ensures exists o :: TransferFits(s.layout, tags, s.transfers[i], o)
    {
      var o :| TransferFits(s.layout, s.tags, s.transfers[i], o);
      assert TransferFits(s.layout, tags, s.transfers[i], o);
    }
  }

  /** Registering a copy, for a file without unfinished transfers. */
  lemma CopyAddedKeeps(cs: CatState, r: RecordId, row: FileRow, action: Action, url: string)
    requires Mid(cs) && Holds(cs.store.layout, r, row) && NoUnfinished(cs.store, row.id)
    ensures Mid(CopyAdded(cs, r, row.id, action, url))
  {
    var s, cs' := cs.store, CopyAdded(cs, r, row.id, action, url);
    if !action.ClearHot? {
      var t := cs'.store.tags[row.id];
      assert cs'.store == s.(tags := s.tags[row.id := t], disk := s.disk);
      RetagCore(s, t, s.disk, r, row);
      forall q | q in cs'.store.layout && q !in cs'.queue ensures CacheSound(cs'.store, q) {
        RetagCache(s, t, s.disk, r, row, q);
      }
    }
  }

  /** Issuing a transfer that fits, for a file without unfinished transfers. */
  lemma IssueKeeps(cs: CatState, t: Transfer, row: FileRow)
    requires Mid(cs) && TransferFits(cs.store.layout, cs.store.tags, t, row) && NoUnfinished(cs.store, row.id) && !t.finished
    ensures Mid(cs.(store := cs.store.(transfers := cs.store.transfers + [t])))
  {
    var s := cs.store;
    var s' := s.(transfers := s.transfers + [t]);
    forall i | 0 <= i < |s'.transfers| && !s'.transfers[i].finished
      ensures exists o :: TransferFits(s.layout, s.tags, s'.transfers[i], o)
    {
      if i == |s.transfers| {
        assert TransferFits(s.layout, s.tags, t, row);
      }
    }
    forall q | q in s.layout && q !in cs.queue ensures CacheSound(s', q) {
      IssueCache(s, t, row, q);
    }
  }

  lemma IssueCache(s: Store, t: Transfer, row: FileRow, q: RecordId)
    requires CacheSound(s, q) && TransferFits(s.layout, s.tags, t, row)
    ensures CacheSound(s.(transfers := s.transfers + [t]), q)
  {
    var s' := s.(transfers := s.transfers + [t]);
    AgreesFrame(s, s', q);
    DetailsMention(s, q);
    assert StageRequested(s', q) == StageRequested(s, q);
    if StageTransferring(s', q) && !StageTransferring(s, q) {
      var i :| 0 <= i < |s'.transfers| && s'.transfers[i].record == q && !s'.transfers[i].finished && s'.transfers[i].action == Stage;
      assert i == |s.transfers| && row in Rows(s.layout[q]);
    }
  }

  /** A file whose tags are at rest has no unfinished transfer, neither one way nor the other. */
  lemma TagsForbidTransfers(s: Store, r: RecordId, row: FileRow)
    requires Core(s) && Holds(s.layout, r, row)
    ensures var t := s.tags[row.id];
            && (t.cold.Some? && !t.hotDeleted ==> NoUnfinished(s, row.id))
            && (t.cold.None? && !IsScheduled(s, row.id, Archive) ==> NoUnfinished(s, row.id))
            && (t.hotDeleted && !IsScheduled(s, row.id, Stage) ==> NoUnfinished(s, row.id))
  {
    forall i | 0 <= i < |s.transfers| && !s.transfers[i].finished && s.transfers[i].file == row.id
      ensures (s.transfers[i].action == Archive && s.tags[row.id].cold.None?)
           || (s.transfers[i].action == Stage && s.tags[row.id].hotDeleted)
    {
      var o :| TransferFits(s.layout, s.tags, s.transfers[i], o);
    }
  }

  // ---------- Moving files ----------

  /** A file to stage always has its cold URL at hand. */
  lemma SourceKnown(s: Store, r: RecordId, f: CachedFile, action: Action)
    requires Core(s) && Holds(s.layout, r, f.row) && f == FreshFile(f.row, s.tags)
    requires !action.ClearHot? && !IsQos(f, action)
    ensures Source(f, action).Some?
  {
    assert f.row.id in s.tags;
  }

  lemma MoveFileKeeps(c: seq<Location>, cs: CatState, r: RecordId, f: CachedFile, action: Action, o: MoveOptions, env: Env)
    requires Mid(cs) && Holds(cs.store.layout, r, f.row) && f == FreshFile(f.row, cs.store.tags) && !action.ClearHot?
    ensures Mid(MoveFile(c, cs, r, f, action, o, env).1)
  {
    hide Destination;
    var s := cs.store;
    if !IsQos(f, action) && !IsScheduled(s, f.row.id, action) {
      TagsForbidTransfers(s, r, f.row);
      var dest := Destination(c, f, action);
      if dest.Some? {
        if !o.force && env.verified(dest.value) {
          if o.register {
            CopyAddedKeeps(cs, r, f.row, action, dest.value);
          }
        } else if !o.dry && env.accepts(f.row.id) {
          assert TransferFits(s.layout, s.tags, NewTransfer(r, f, action, dest.value), f.row);
          IssueKeeps(cs, NewTransfer(r, f, action, dest.value), f.row);
        }
      }
    }
  }

  /** What one visit changes: the tags of that file only, the queue only when it registers. */
  lemma MoveFileFrame(c: seq<Location>, cs: CatState, r: RecordId, f: CachedFile, action: Action, o: MoveOptions, env: Env)
    ensures var (status, cs') := MoveFile(c, cs, r, f, action, o, env);
            && (forall id | id != f.row.id :: TagsOf(cs'.store.tags, id) == TagsOf(cs.store.tags, id))
            && (!status.Registered? ==> cs'.store.tags == cs.store.tags && cs'.queue == cs.queue)
            && cs'.store == cs.store.(tags := cs'.store.tags, transfers := cs'.store.transfers)
  {
    hide IsScheduled, Destination;
  }

  /** Retagging the first listed file leaves the rest of the list up to date. */
  lemma ListsTail(files: seq<CachedFile>, rows: seq<FileRow>, tags: map<FileId, Tags>, tags': map<FileId, Tags>)
    requires files != [] && Lists(files, rows, tags)
    requires forall id | id != files[0].row.id :: TagsOf(tags', id) == TagsOf(tags, id)
    ensures Lists(files[1..], rows, tags')
  {
    forall k | 0 <= k < |files[1..]| ensures files[1..][k].row in rows && files[1..][k] == FreshFile(files[1..][k].row, tags') {
      assert files[1..][k] == files[k + 1];
    }
  }

  lemma MoveStepKeeps(c: seq<Location>, run: MoveRun, r: RecordId, files: seq<CachedFile>, action: Action,
                      o: MoveOptions, env: Env)
    requires Mid(run.cs) && (run.cs.queue != [] ==> run.registered) && files != []
    requires r in run.cs.store.layout && Lists(files, Rows(run.cs.store.layout[r]), run.cs.store.tags)
    requires !action.ClearHot?
    ensures var next := MoveStep(c, run, r, files[0], action, o, env);
            && Mid(next.cs) && (next.cs.queue != [] ==> next.registered)
            && next.cs.store.layout == run.cs.store.layout
            && Lists(files[1..], Rows(next.cs.store.layout[r]), next.cs.store.tags)
  {
    assert Holds(run.cs.store.layout, r, files[0].row);
    MoveFileKeeps(c, run.cs, r, files[0], action, o, env);
    MoveFileFrame(c, run.cs, r, files[0], action, o, env);
    ListsTail(files, Rows(run.cs.store.layout[r]), run.cs.store.tags, MoveFile(c, run.cs, r, files[0], action, o, env).1.store.tags);
  }

  lemma {:induction false} MoveFilesKeeps(c: seq<Location>, run: MoveRun, r: RecordId, files: seq<CachedFile>, action: Action,
                                          o: MoveOptions, env: Env, budget: int)
    requires Mid(run.cs) && (run.cs.queue != [] ==> run.registered)
    requires r in run.cs.store.layout && Lists(files, Rows(run.cs.store.layout[r]), run.cs.store.tags)
    requires !action.ClearHot?
    ensures var end := MoveFiles(c, run, r, files, action, o, env, budget);
            Mid(end.cs) && (end.cs.queue != [] ==> end.registered)
    decreases |files|
  {
    hide Mid, MoveStep, Lists, Rows;
    if files != [] {
      MoveStepKeeps(c, run, r, files, action, o, env);
      MoveFilesKeeps(c, MoveStep(c, run, r, files[0], action, o, env), r, files[1..], action, o, env, budget);
    }
  }

  // ---------- Refreshing ----------

  lemma RefreshSound(s: Store, r: RecordId)
    requires Core(s) && r in s.layout
    ensures Core(RefreshRecord(s, r)) && CacheSound(RefreshRecord(s, r), r)
    ensures forall q | q in s.layout && q != r && CacheSound(s, q) :: CacheSound(RefreshRecord(s, r), q)
  {
    var s' := RefreshRecord(s, r);
    assert s'.records[r].indices == FreshIndices(s.layout[r].indices, s.tags);
    assert s.layout[r].direct == [] ==> FreshFiles(s.layout[r].direct, s.tags) == [];
    assert StagePending(s', r) == StagePending(s, r);
    forall q | q in s.layout && q != r && CacheSound(s, q) ensures CacheSound(s', q) {
      assert StagePending(s', q) == StagePending(s, q);
    }
  }

  /** Draining the queue brings every record up to date. */
  lemma {:induction false} RefreshAllSound(s: Store, queue: seq<RecordId>)
    requires Mid(CatState(s, queue))
    ensures Inv(RefreshAll(s, queue))
    decreases |queue|
  {
    if queue != [] {
      RefreshSound(s, queue[0]);
      var s' := RefreshRecord(s, queue[0]);
      forall q | q in s'.layout && q !in queue[1..] ensures CacheSound(s', q) {
        if q != queue[0] {
          assert q !in queue;
        }
      }
      RefreshAllSound(s', queue[1..]);
    }
  }

  // ---------- Operations of the manager ----------

  /** Archiving or staging a record keeps the invariant and leaves nothing queued. */
  lemma RecordMovedKeeps(c: seq<Location>, s: Store, r: RecordId, limit: int, action: Action, o: MoveOptions, env: Env,
                         budget: int, file: string)
    requires Inv(s) && !action.ClearHot?
    ensures var (cs', _) := RecordMoved(c, CatState(s, []), r, limit, action, o, env, budget, file);
            Inv(cs'.store) && cs'.queue == []
  {
    if r in s.records {
      var cs := CatState(s, []);
      SelectionLists(s, r, limit, file);
      MoveFilesKeeps(c, MoveRun(cs, [], false, 0), r, SelectFiles(s.records[r], limit, file), action, o, env, budget);
      var run := MoveRecordRun(c, cs, r, limit, action, o, env, budget, file);
      if run.registered {
        RefreshAllSound(run.cs.store, run.cs.queue);
      }
    }
  }

  /** The file at hand can be cleared: it has both copies, its tag does not exist yet, and no transfer is about it. */
  lemma ClearFileKeeps(cs: CatState, r: RecordId, f: CachedFile, force: bool, dry: bool,
                       removable: string -> bool)
    requires Mid(cs) && Holds(cs.store.layout, r, f.row) && f == FreshFile(f.row, cs.store.tags)
    requires IsQos(f, Archive) && IsQos(f, Stage)
    ensures var cs0 := cs.(store := RemoveHot(cs.store, f.row.uri, dry, removable));
            var (ok, cs1) := MarkHotDeleted(cs0, r, f.row.id, force);
            && ok && Mid(cs1)
            && cs1.store == cs.store.(tags := cs.store.tags[f.row.id := f.tags.(hotDeleted := true)], disk := cs1.store.disk)
            && r in cs1.queue
  {
    var s := cs.store;
    var disk := RemoveHot(s, f.row.uri, dry, removable).disk;
    TagsForbidTransfers(s, r, f.row);
    var t := f.tags.(hotDeleted := true);
    RetagCore(s, t, disk, r, f.row);
    var s' := s.(tags := s.tags[f.row.id := t], disk := disk);
    forall q | q in s.layout && q !in Enqueue(cs.queue, r) ensures CacheSound(s', q) {
      RetagCache(s, t, disk, r, f.row, q);
    }
  }

  lemma {:induction false} ClearFilesKeeps(cs: CatState, r: RecordId, files: seq<CachedFile>, force: bool,
                                           dry: bool, removable: string -> bool, cleared: bool)
    requires Mid(cs) && r in cs.store.layout && Lists(files, Rows(cs.store.layout[r]), cs.store.tags)
    requires cs.queue != [] ==> cleared
    ensures var (cs', cleared', gaveUp) := ClearFiles(cs, r, files, force, dry, removable, cleared);
            Mid(cs') && !gaveUp && (cs'.queue != [] ==> cleared')
    decreases |files|
  {
    hide Mid, RemoveHot, MarkHotDeleted, FreshFile, Rows;
    if files != [] {
      var f := files[0];
      assert Holds(cs.store.layout, r, f.row);
      if !IsQos(f, Archive) || !IsQos(f, Stage) {
        assert Lists(files[1..], Rows(cs.store.layout[r]), cs.store.tags);
        ClearFilesKeeps(cs, r, files[1..], force, dry, removable, cleared);
      } else {
        ClearFileKeeps(cs, r, f, force, dry, removable);
        var (_, cs1) := MarkHotDeleted(cs.(store := RemoveHot(cs.store, f.row.uri, dry, removable)), r, f.row.id, force);
        ListsTail(files, Rows(cs.store.layout[r]), cs.store.tags, cs1.store.tags);
        ClearFilesKeeps(cs1, r, files[1..], force, dry, removable, true);
      }
    }
  }

  /** Clearing hot copies keeps the invariant, and never stops half-way: the tag never exists already. */
  lemma RecordClearedKeeps(s: Store, r: RecordId, limit: int, force: bool, dry: bool,
                           removable: string -> bool, file: string)
    requires Inv(s)
    ensures var (cs', _) := RecordCleared(CatState(s, []), r, limit, force, dry, removable, file);
            Inv(cs'.store) && cs'.queue == []
    ensures r in s.records ==> !ClearFiles(CatState(s, []), r, SelectFiles(s.records[r], limit, file), force, dry, removable, false).2
  {
    if r in s.records {
      var cs := CatState(s, []);
      SelectionLists(s, r, limit, file);
      ClearFilesKeeps(cs, r, SelectFiles(s.records[r], limit, file), force, dry, removable, false);
      var (cs', cleared, _) := ClearFiles(cs, r, SelectFiles(s.records[r], limit, file), force, dry, removable, false);
      if cleared {
        RefreshAllSound(cs'.store, cs'.queue);
      }
    }
  }

  // ---------- Operations of the services ----------

  /** Requests may move on: none is added, renamed, or submitted again. */
  ghost predicate MovesOn(before: seq<Request>, after: seq<Request>) {
    && |before| == |after|
    && forall k | 0 <= k < |before| ::
      && after[k].record == before[k].record && after[k].action == before[k].action
      && (after[k].status == Submitted ==> before[k].status == Submitted)
  }

  lemma MovesOnPending(s: Store, requests: seq<Request>, r: RecordId)
    requires MovesOn(s.requests, requests)
    ensures StagePending(s.(requests := requests), r) ==> StagePending(s, r)
  {
    var s' := s.(requests := requests);
    if StageTransferring(s', r) {
      assert StageTransferring(s, r);
    }
  }

  lemma RequestsMoveOn(s: Store, requests: seq<Request>)
    requires Inv(s) && MovesOn(s.requests, requests)
    ensures Inv(s.(requests := requests))
  {
    hide TagTableSound, TransfersSound, OneVersion, Agrees, StagePending;
    var s' := s.(requests := requests);
    forall r | r in s.layout ensures CacheSound(s', r) {
      assert CacheSound(s, r);
      AgreesFrame(s, s', r);
      MovesOnPending(s, requests, r);
    }
  }

  lemma SubmitStepKeeps(c: Config, s: Store, action: Action, id: nat, budget: int, submitted: nat, env: Env)
    requires Inv(s) && id < |s.requests| && !action.ClearHot?
    ensures var (cs', _) := SubmitStep(c, CatState(s, []), action, id, budget, submitted, env);
            Inv(cs'.store) && cs'.queue == [] && cs'.store.disk == s.disk
  {
    hide Inv, RecordMoved;
    var q := s.requests[id];
    RecordMovedKeeps(c.locations, s, q.record, 0, action, SERVICE_OPTIONS, env, budget - submitted, q.file);
    var (moved, issued) := RecordMoved(c.locations, CatState(s, []), q.record, 0, action, SERVICE_OPTIONS, env, budget - submitted, q.file);
    assert moved.store.requests == s.requests && moved.store.disk == s.disk;
    RequestsMoveOn(moved.store, s.requests[id := Charged(q, issued, budget == submitted + |issued|)]);
  }

  lemma {:induction false} SubmitLoopKeeps(c: Config, s: Store, action: Action, ids: seq<nat>, budget: int, submitted: nat,
                                           envs: nat -> Env)
    requires Inv(s) && (forall k | 0 <= k < |ids| :: ids[k] < |s.requests|) && !action.ClearHot?
    ensures var (cs', _) := SubmitLoop(c, CatState(s, []), action, ids, budget, submitted, envs);
            Inv(cs'.store) && cs'.queue == [] && cs'.store.disk == s.disk
    decreases |ids|
  {
    hide Inv, SubmitStep;
    if ids != [] {
      SubmitStepKeeps(c, s, action, ids[0], budget, submitted, envs(ids[0]));
      var (cs', submitted') := SubmitStep(c, CatState(s, []), action, ids[0], budget, submitted, envs(ids[0]));
      if budget - submitted' > 0 {
        SubmitLoopKeeps(c, cs'.store, action, ids[1..], budget, submitted', envs);
      }
    }
  }

  lemma SubmittedCheckedKeeps(c: Config, s: Store, envs: (Action, nat) -> Env)
    requires Inv(s)
    ensures Inv(SubmittedChecked(c, s, envs))
  {
    hide Inv, SubmitLoop;
    var stage := (id: nat) => envs(Stage, id);
    var archive := (id: nat) => envs(Archive, id);
    var ids := RequestIds(s.requests, Submitted, Stage);
    var budget := Threshold(c, Stage) - CountActive(s.transfers, Stage);
    SubmitLoopKeeps(c, s, Stage, ids, budget, 0, stage);
    var cs1 := CheckSubmittedAction(c, CatState(s, []), Stage, stage);
    assert cs1 == CatState(cs1.store, []);
    var ids1 := RequestIds(cs1.store.requests, Submitted, Archive);
    SubmitLoopKeeps(c, cs1.store, Archive, ids1, Threshold(c, Archive) - CountActive(cs1.store.transfers, Archive), 0, archive);
  }

  lemma RunningStepKeeps(s: Store, action: Action, id: nat)
    requires Inv(s) && id < |s.requests|
    ensures Inv(RunningStep(s, action, id))
  {
    hide Inv, SaveAvailability, CountFailed;
    var r := s.requests[id].record;
    RequestResolves(s, id);
    var counted := s.requests[id].(numFailed := CountFailed(s.transfers, r));
    var waiting, done := s.requests[id := counted], s.requests[id := counted.(status := Completed)];
    RequestsMoveOn(s, waiting);
    RequestsMoveOn(s, done);
    SaveKeeps(s.(requests := waiting), r);
    var saved := SaveAvailability(s.(requests := waiting), r);
    RequestsMoveOn(saved, done);
  }

  lemma RequestResolves(s: Store, id: nat)
    requires Inv(s) && id < |s.requests|
    ensures s.requests[id].record in s.records
  {
  }

  lemma SaveKeeps(s: Store, r: RecordId)
    requires Inv(s) && r in s.records
    ensures Inv(SaveAvailability(s, r))
  {
    hide Core, CacheSound, Rechecked;
    forall q | q in s.layout ensures CacheSound(SaveAvailability(s, r), q) {
      SaveCache(s, r, q);
    }
    SaveCore(s, r);
  }

  lemma SaveCore(s: Store, r: RecordId)
    requires Core(s) && r in s.records
    ensures Core(SaveAvailability(s, r))
  {
    hide OneVersion, TagTableSound, TransfersSound;
  }

  lemma SaveCache(s: Store, r: RecordId, q: RecordId)
    requires r in s.records && CacheSound(s, q)
    ensures CacheSound(SaveAvailability(s, r), q)
  {
    assert StagePending(SaveAvailability(s, r), q) == StagePending(s, q);
  }

  lemma {:induction false} RunningLoopKeeps(s: Store, action: Action, ids: seq<nat>)
    requires Inv(s) && forall k | 0 <= k < |ids| :: ids[k] < |s.requests|
    ensures Inv(RunningLoop(s, action, ids))
    decreases |ids|
  {
    hide Inv, RunningStep;
    if ids != [] {
      RunningStepKeeps(s, action, ids[0]);
      RunningLoopKeeps(RunningStep(s, action, ids[0]), action, ids[1..]);
    }
  }

  lemma RunningCheckedKeeps(s: Store)
    requires Inv(s)
    ensures Inv(RunningChecked(s))
  {
    hide Inv, RunningLoop;
    RunningLoopKeeps(s, Stage, RequestIds(s.requests, Started, Stage));
    var s1 := CheckRunningAction(s, Stage);
    RunningLoopKeeps(s1, Archive, RequestIds(s1.requests, Started, Archive));
    var s2 := CheckRunningAction(s1, Archive);
    RunningLoopKeeps(s2, ClearHot, RequestIds(s2.requests, Started, ClearHot));
  }

  lemma UpdateTransferKeeps(cs: CatState, id: nat, t: Transfer)
    requires Mid(cs) && id < |cs.store.transfers|
    requires t == cs.store.transfers[id].(status := t.status, finished := t.finished)
    requires cs.store.transfers[id].finished ==> t.finished
    ensures Mid(cs.(store := cs.store.(transfers := cs.store.transfers[id := t])))
  {
    hide Rows, Agrees;
    var s := cs.store;
    var s' := s.(transfers := s.transfers[id := t]);
    forall i | 0 <= i < |s'.transfers| && !s'.transfers[i].finished
      ensures exists row :: TransferFits(s.layout, s.tags, s'.transfers[i], row)
    {
      var row :| TransferFits(s.layout, s.tags, s.transfers[i], row);
      assert TransferFits(s.layout, s.tags, s'.transfers[i], row);
    }
    forall r | r in s.layout && r !in cs.queue ensures CacheSound(s', r) {
      UpdateTransferCache(s, id, t, r);
    }
  }

  lemma UpdateTransferCache(s: Store, id: nat, t: Transfer, r: RecordId)
    requires CacheSound(s, r) && id < |s.transfers|
    requires t == s.transfers[id].(status := t.status, finished := t.finished)
    requires s.transfers[id].finished ==> t.finished
    ensures CacheSound(s.(transfers := s.transfers[id := t]), r)
  {
    var s' := s.(transfers := s.transfers[id := t]);
    AgreesFrame(s, s', r);
    assert StageRequested(s', r) == StageRequested(s, r);
    assert StageTransferring(s', r) ==> StageTransferring(s, r);
  }

  lemma TransferStepKeeps(cs: CatState, id: nat, status: TransferStatus)
    requires Mid(cs) && id < |cs.store.transfers| && !cs.store.transfers[id].finished
    ensures Mid(TransferStep(cs, id, status))
  {
    var t := cs.store.transfers[id];
    var t' := t.(status := status, finished := t.finished || Finishes(status));
    UpdateTransferKeeps(cs, id, t');
    if status.Done? {
      var cs1 := cs.(store := cs.store.(transfers := cs.store.transfers[id := t']));
      var row :| TransferFits(cs.store.layout, cs.store.tags, t, row);
      assert NoUnfinished(cs1.store, row.id);
      CopyAddedKeeps(cs1, t.record, row, t.action, t.newFilename);
    }
  }

  lemma {:induction false} TransferLoopKeeps(cs: CatState, order: seq<nat>, answers: nat -> TransferStatus)
    requires Mid(cs) && Ongoing(cs.store, order)
    ensures Mid(TransferLoop(cs, order, answers))
    decreases |order|
  {
    if order != [] {
      TransferStepKeeps(cs, order[0], answers(order[0]));
      var next := TransferStep(cs, order[0], answers(order[0]));
      assert forall k | 0 < k < |order| :: next.store.transfers[order[k]] == cs.store.transfers[order[k]];
      assert forall k | 0 <= k < |order[1..]| :: order[1..][k] == order[k + 1];
      TransferLoopKeeps(next, order[1..], answers);
    }
  }

  lemma TransfersProcessedKeeps(s: Store, order: seq<nat>, answers: nat -> TransferStatus)
    requires Inv(s) && Ongoing(s, order)
    ensures Inv(TransfersProcessed(s, order, answers))
  {
    TransferLoopKeeps(CatState(s, []), order, answers);
    var cs := TransferLoop(CatState(s, []), order, answers);
    RefreshAllSound(cs.store, cs.queue);
  }

  lemma UserStageKeeps(s: Store, r: RecordId, file: string, emailValid: bool)
    requires Inv(s) && r in s.records
    ensures Inv(UserStage(s, r, file, emailValid))
  {
    hide Rows, Agrees, StagePending;
    var s' := UserStage(s, r, file, emailValid);
    if emailValid {
      forall q | q in s.layout ensures CacheSound(s', q) {
        UserStageCache(s, r, file, q);
      }
    }
  }

  /** The record asked for shows as requested; for the others nothing new is pending. */
  lemma UserStageCache(s: Store, r: RecordId, file: string, q: RecordId)
    requires r in s.records && CacheSound(s, q)
    ensures CacheSound(UserStage(s, r, file, true), q)
  {
    var s' := UserStage(s, r, file, true);
    assert StageTransferring(s', q) == StageTransferring(s, q);
    if q != r {
      if StageRequested(s', q) {
        var i :| 0 <= i < |s'.requests| && s'.requests[i].record == q && s'.requests[i].status == Submitted
                 && s'.requests[i].action == Stage;
        assert s.requests[i] == s'.requests[i];
      }
    }
  }
}
