/** The tags tell the truth about the storage: what this takes of the table of locations and of the answers. */
module ColdStorage {
  import opened Options
  import opened ColdTypes
  import opened ColdModel
  import opened Locations
  import opened Catalog
  import opened Manager
  import opened Service
  import opened ColdInvariant
  import opened ColdPreservation
  import opened ColdRuns
  import opened ColdDrain

  // ---------- What is assumed of the configuration and of the layout, which no step changes ----------

  /** Archiving a file with that URL can be tried at all. */
  predicate Archivable(c: seq<Location>, url: string) {
    var cold := FindUrl(c, Archive, url);
    cold.Some? && cold.value != ""
  }

  /** The cold URL leads back to the hot URL, or nowhere. */
  predicate LeadsHome(c: seq<Location>, url: string)
    requires Archivable(c, url)
  {
    var back := FindUrl(c, Stage, FindUrl(c, Archive, url).value);
    back.None? || back.value in {"", url}
  }

  /** A file that can be archived shares its hot URL with no other one, its cold URL leads nowhere else, and it is the
      hot URL of no file that can be archived. */
  ghost predicate ReversibleRow(c: seq<Location>, l: Layouts, r: RecordId, row: FileRow) {
    Archivable(c, row.uri) ==>
      && LeadsHome(c, row.uri)
      && (forall q, other | Holds(l, q, other) && other.uri == row.uri :: q == r && other == row)
      && (forall q, other | Holds(l, q, other) && Archivable(c, other.uri) ::
            FindUrl(c, Archive, row.uri) != Some(other.uri))
  }

  ghost predicate Reversible(c: seq<Location>, l: Layouts) {
    forall r, row | Holds(l, r, row) :: ReversibleRow(c, l, r, row)
  }

  // ---------- The invariant ----------

  /** A cold tag is the translated URL and that copy is there; unless it is marked removed, the hot copy is there. */
  ghost predicate TagsTrue(c: seq<Location>, t: Tags, disk: set<string>, row: FileRow) {
    && (t.cold.Some? ==> t.cold.value in disk && t.cold.value != "" && FindUrl(c, Archive, row.uri) == t.cold)
    && (!t.hotDeleted ==> row.uri in disk)
  }

  /** A transfer goes where its file belongs. */
  ghost predicate Carries(c: seq<Location>, t: Transfer, row: FileRow) {
    match t.action
    case Archive => FindUrl(c, Archive, row.uri) == Some(t.newFilename) && t.newFilename != ""
    case Stage => t.newFilename == row.uri
    case ClearHot => false
  }

  ghost predicate TransfersCarry(c: seq<Location>, l: Layouts, transfers: seq<Transfer>) {
    forall i, row | 0 <= i < |transfers| && !transfers[i].finished
                    && Holds(l, transfers[i].record, row) && row.id == transfers[i].file ::
      Carries(c, transfers[i], row)
  }

  ghost predicate TagTableTrue(c: seq<Location>, s: Store) {
    forall r, row | Holds(s.layout, r, row) :: TagsTrue(c, TagsOf(s.tags, row.id), s.disk, row)
  }

  ghost predicate Stored(c: seq<Location>, s: Store) {
    && Reversible(c, s.layout)
    && TagTableTrue(c, s) && TransfersCarry(c, s.layout, s.transfers)
  }

  /** The storage may answer anything, except that it claims a copy that is not there. */
  ghost predicate Honest(s: Store, env: Env) {
    forall url | env.verified(url) :: url in s.disk
  }

  /** A transfer reported as done has its destination on storage. */
  ghost predicate Truthful(s: Store, order: seq<nat>, answers: nat -> TransferStatus)
    requires forall k | 0 <= k < |order| :: order[k] < |s.transfers|
  {
    forall k | 0 <= k < |order| && answers(order[k]).Done? :: s.transfers[order[k]].newFilename in s.disk
  }

  // ---------- Primitive updates ----------

  lemma SameTablesStored(c: seq<Location>, s: Store, s': Store)
    requires Stored(c, s)
    requires s'.layout == s.layout && s'.tags == s.tags && s'.transfers == s.transfers && s'.disk == s.disk
    ensures Stored(c, s')
  {
  }

  /** One file is retagged truthfully; at most its own hot copy goes. */
  lemma RetagStored(c: seq<Location>, s: Store, t: Tags, disk: set<string>, r: RecordId, row: FileRow)
    requires OneVersion(s.layout) && Stored(c, s) && Holds(s.layout, r, row)
    requires s.disk <= disk + {row.uri} && (t.cold.Some? || s.disk <= disk) && TagsTrue(c, t, disk, row)
    ensures Stored(c, s.(tags := s.tags[row.id := t], disk := disk))
  {
    var s' := s.(tags := s.tags[row.id := t], disk := disk);
    forall q, other | Holds(s.layout, q, other) ensures TagsTrue(c, TagsOf(s'.tags, other.id), disk, other) {
      assert TagsTrue(c, TagsOf(s.tags, other.id), s.disk, other);
      assert ReversibleRow(c, s.layout, q, other) && ReversibleRow(c, s.layout, r, row);
    }
  }

  lemma IssueStored(c: seq<Location>, s: Store, t: Transfer)
    requires Stored(c, s) && forall row | Holds(s.layout, t.record, row) && row.id == t.file :: Carries(c, t, row)
    ensures Stored(c, s.(transfers := s.transfers + [t]))
  {
    hide Reversible, Carries, TagTableTrue;
    assert TagTableTrue(c, s.(transfers := s.transfers + [t])) by {
      SameTagTable(c, s, s.(transfers := s.transfers + [t]));
    }
  }

  lemma SameTagTable(c: seq<Location>, s: Store, s': Store)
    requires TagTableTrue(c, s) && s'.layout == s.layout && s'.tags == s.tags && s.disk <= s'.disk
    ensures TagTableTrue(c, s')
  {
    forall r, row | Holds(s.layout, r, row) ensures TagsTrue(c, TagsOf(s'.tags, row.id), s'.disk, row) {
      assert TagsTrue(c, TagsOf(s.tags, row.id), s.disk, row);
    }
  }

  // ---------- Moving ----------

  /** Where a file of the record would be copied to. */
  lemma DestinationTrue(c: seq<Location>, s: Store, r: RecordId, f: CachedFile, action: Action)
    requires Stored(c, s) && Holds(s.layout, r, f.row) && f == FreshFile(f.row, s.tags)
    requires !action.ClearHot? && !IsQos(f, action)
    ensures var dest := Destination(c, f, action);
            dest.Some? ==>
              dest.value != "" && if action.Archive? then FindUrl(c, Archive, f.row.uri) == dest else dest == Some(f.row.uri)
  {
    assert TagsTrue(c, TagsOf(s.tags, f.row.id), s.disk, f.row) && ReversibleRow(c, s.layout, r, f.row);
  }

  lemma MoveFileStored(c: seq<Location>, cs: CatState, r: RecordId, f: CachedFile, action: Action, o: MoveOptions, env: Env)
    requires OneVersion(cs.store.layout) && Stored(c, cs.store) && Honest(cs.store, env) && !action.ClearHot?
    requires Holds(cs.store.layout, r, f.row) && f == FreshFile(f.row, cs.store.tags)
    ensures Stored(c, MoveFile(c, cs, r, f, action, o, env).1.store)
  {
    hide Stored, Destination, OneVersion, Holds;
    var s := cs.store;
    if !IsQos(f, action) && !IsScheduled(s, f.row.id, action) && Destination(c, f, action).Some? {
      var dest := Destination(c, f, action).value;
      DestinationTrue(c, s, r, f, action);
      if !o.force && env.verified(dest) {
        if o.register && f.row.id in s.tags {
          var t := CopyAdded(cs, r, f.row.id, action, dest).store.tags[f.row.id];
          FileTrue(c, s, r, f.row);
          RetagStored(c, s, t, s.disk, r, f.row);
        }
      } else if !o.dry && env.accepts(f.row.id) {
        var t := NewTransfer(r, f, action, dest);
        forall row | Holds(s.layout, r, row) && row.id == t.file ensures Carries(c, t, row) {
          OneRow(s.layout, r, row, f.row);
        }
        IssueStored(c, s, t);
      }
    }
  }

  lemma FileTrue(c: seq<Location>, s: Store, r: RecordId, row: FileRow)
    requires Stored(c, s) && Holds(s.layout, r, row)
    ensures TagsTrue(c, TagsOf(s.tags, row.id), s.disk, row)
  {
  }

  lemma OneRow(l: Layouts, r: RecordId, row: FileRow, other: FileRow)
    requires OneVersion(l) && Holds(l, r, row) && Holds(l, r, other) && row.id == other.id
    ensures row == other
  {
  }

  lemma {:induction false} MoveFilesStored(c: seq<Location>, run: MoveRun, r: RecordId, files: seq<CachedFile>,
                                           action: Action, o: MoveOptions, env: Env, budget: int)
    requires Mid(run.cs) && (run.cs.queue != [] ==> run.registered) && Stored(c, run.cs.store) && !action.ClearHot?
    requires r in run.cs.store.layout && Lists(files, Rows(run.cs.store.layout[r]), run.cs.store.tags)
    requires Honest(run.cs.store, env)
    ensures Stored(c, MoveFiles(c, run, r, files, action, o, env, budget).cs.store)
    decreases |files|
  {
    hide Stored, MoveFile, Core, CacheSound, Rows;
    if files != [] {
      assert Holds(run.cs.store.layout, r, files[0].row);
      MoveStepKeeps(c, run, r, files, action, o, env);
      assert OneVersion(run.cs.store.layout) by { MidVersions(run.cs); }
      MoveFileStored(c, run.cs, r, files[0], action, o, env);
      MoveFileFrame(c, run.cs, r, files[0], action, o, env);
      MoveFilesStored(c, MoveStep(c, run, r, files[0], action, o, env), r, files[1..], action, o, env, budget);
    }
  }

  lemma MidVersions(cs: CatState)
    requires Mid(cs)
    ensures OneVersion(cs.store.layout)
  {
  }

  lemma RefreshAllStored(c: seq<Location>, s: Store, queue: seq<RecordId>)
    requires Stored(c, s)
    ensures Stored(c, RefreshAll(s, queue))
  {
    hide Stored;
    SameTablesStored(c, s, RefreshAll(s, queue));
  }

  lemma RecordMovedStored(c: seq<Location>, s: Store, r: RecordId, limit: int, action: Action, o: MoveOptions, env: Env,
                          budget: int, file: string)
    requires Inv(s) && Stored(c, s) && Honest(s, env) && !action.ClearHot?
    ensures Stored(c, RecordMoved(c, CatState(s, []), r, limit, action, o, env, budget, file).0.store)
  {
    hide Stored, MoveFiles, RefreshAll, SelectFiles, Lists, Rows;
    if r in s.records {
      var files := SelectFiles(s.records[r], limit, file);
      assert Mid(CatState(s, [])) && r in s.layout;
      SelectionLists(s, r, limit, file);
      MoveFilesStored(c, MoveRun(CatState(s, []), [], false, 0), r, files, action, o, env, budget);
      var run := MoveFiles(c, MoveRun(CatState(s, []), [], false, 0), r, files, action, o, env, budget);
      RefreshAllStored(c, run.cs.store, run.cs.queue);
    }
  }

  // ---------- Submission ----------

  lemma SubmitStepStored(c: Config, s: Store, action: Action, id: nat, budget: int, submitted: nat, env: Env)
    requires Inv(s) && Stored(c.locations, s) && id < |s.requests| && !action.ClearHot? && Honest(s, env)
    ensures Stored(c.locations, SubmitStep(c, CatState(s, []), action, id, budget, submitted, env).0.store)
  {
    hide Inv, Stored, RecordMoved;
    var q, left := s.requests[id], budget - submitted;
    RecordMovedStored(c.locations, s, q.record, 0, action, SERVICE_OPTIONS, env, left, q.file);
    SameTablesStored(c.locations,
                     RecordMoved(c.locations, CatState(s, []), q.record, 0, action, SERVICE_OPTIONS, env, left, q.file).0.store,
                     SubmitStep(c, CatState(s, []), action, id, budget, submitted, env).0.store);
  }

  lemma {:induction false} SubmitLoopStored(c: Config, s: Store, action: Action, ids: seq<nat>, budget: int,
                                            submitted: nat, envs: nat -> Env)
    requires Inv(s) && Stored(c.locations, s) && (forall k | 0 <= k < |ids| :: ids[k] < |s.requests|)
    requires !action.ClearHot? && forall id :: Honest(s, envs(id))
    ensures Stored(c.locations, SubmitLoop(c, CatState(s, []), action, ids, budget, submitted, envs).0.store)
    decreases |ids|
  {
    hide Inv, Stored, SubmitStep;
    if ids != [] {
      SubmitStepKeeps(c, s, action, ids[0], budget, submitted, envs(ids[0]));
      SubmitStepStored(c, s, action, ids[0], budget, submitted, envs(ids[0]));
      var (cs', submitted') := SubmitStep(c, CatState(s, []), action, ids[0], budget, submitted, envs(ids[0]));
      if budget - submitted' > 0 {
        SubmitLoopStored(c, cs'.store, action, ids[1..], budget, submitted', envs);
      }
    }
  }

  lemma SubmittedCheckedStored(c: Config, s: Store, envs: (Action, nat) -> Env)
    requires Inv(s) && Stored(c.locations, s) && forall a, id :: Honest(s, envs(a, id))
    ensures Stored(c.locations, SubmittedChecked(c, s, envs))
  {
    hide Inv, Stored, SubmitLoop;
    var stage := (id: nat) => envs(Stage, id);
    var archive := (id: nat) => envs(Archive, id);
    var ids := RequestIds(s.requests, Submitted, Stage);
    var budget := Threshold(c, Stage) - CountActive(s.transfers, Stage);
    SubmitLoopKeeps(c, s, Stage, ids, budget, 0, stage);
    SubmitLoopStored(c, s, Stage, ids, budget, 0, stage);
    var cs1 := CheckSubmittedAction(c, CatState(s, []), Stage, stage);
    assert cs1 == CatState(cs1.store, []);
    var ids1 := RequestIds(cs1.store.requests, Submitted, Archive);
    SubmitLoopStored(c, cs1.store, Archive, ids1,
                     Threshold(c, Archive) - CountActive(cs1.store.transfers, Archive), 0, archive);
  }

  // ---------- Removal ----------

  lemma {:induction false} ClearFilesStored(c: seq<Location>, cs: CatState, r: RecordId, files: seq<CachedFile>,
                                            force: bool, dry: bool, removable: string -> bool, cleared: bool)
    requires Mid(cs) && Stored(c, cs.store) && r in cs.store.layout
    requires Lists(files, Rows(cs.store.layout[r]), cs.store.tags)
    ensures Stored(c, ClearFiles(cs, r, files, force, dry, removable, cleared).0.store)
    decreases |files|
  {
    hide Mid, Stored, MarkHotDeleted, FreshFile, Rows, IsQos;
    if files != [] {
      var f := files[0];
      assert Holds(cs.store.layout, r, f.row);
      if !IsQos(f, Archive) || !IsQos(f, Stage) {
        ListsTail(files, Rows(cs.store.layout[r]), cs.store.tags, cs.store.tags);
        ClearFilesStored(c, cs, r, files[1..], force, dry, removable, cleared);
      } else {
        ClearFileKeeps(cs, r, f, force, dry, removable);
        ClearFileStored(c, cs, r, f, force, dry, removable);
        var cs1 := MarkHotDeleted(cs.(store := RemoveHot(cs.store, f.row.uri, dry, removable)), r, f.row.id, force).1;
        ListsTail(files, Rows(cs.store.layout[r]), cs.store.tags, cs1.store.tags);
        ClearFilesStored(c, cs1, r, files[1..], force, dry, removable, true);
      }
    }
  }

  lemma ClearFileStored(c: seq<Location>, cs: CatState, r: RecordId, f: CachedFile, force: bool, dry: bool,
                        removable: string -> bool)
    requires Mid(cs) && Stored(c, cs.store) && Holds(cs.store.layout, r, f.row) && f == FreshFile(f.row, cs.store.tags)
    requires IsQos(f, Archive) && IsQos(f, Stage)
    ensures var cs0 := cs.(store := RemoveHot(cs.store, f.row.uri, dry, removable));
            Stored(c, MarkHotDeleted(cs0, r, f.row.id, force).1.store)
  {
    hide Mid, Stored;
    var s, disk := cs.store, RemoveHot(cs.store, f.row.uri, dry, removable).disk;
    var t := f.tags.(hotDeleted := true);
    FileTrue(c, s, r, f.row);
    ColdIsNotHot(c, s, r, f.row);
    MidVersions(cs);
    RetagStored(c, s, t, disk, r, f.row);
    ClearFileKeeps(cs, r, f, force, dry, removable);
    SameDisk(cs, r, f, force, dry, removable);
  }

  lemma ColdIsNotHot(c: seq<Location>, s: Store, r: RecordId, row: FileRow)
    requires Stored(c, s) && Holds(s.layout, r, row)
    ensures TagsOf(s.tags, row.id).cold != Some(row.uri)
  {
    assert TagsTrue(c, TagsOf(s.tags, row.id), s.disk, row) && ReversibleRow(c, s.layout, r, row);
  }

  lemma SameDisk(cs: CatState, r: RecordId, f: CachedFile, force: bool, dry: bool, removable: string -> bool)
    ensures var cs0 := cs.(store := RemoveHot(cs.store, f.row.uri, dry, removable));
            MarkHotDeleted(cs0, r, f.row.id, force).1.store.disk == cs0.store.disk
  {
  }

  lemma RecordClearedStored(c: seq<Location>, s: Store, r: RecordId, limit: int, force: bool, dry: bool,
                            removable: string -> bool, file: string)
    requires Inv(s) && Stored(c, s)
    ensures Stored(c, RecordCleared(CatState(s, []), r, limit, force, dry, removable, file).0.store)
  {
    hide Stored, ClearFiles, RefreshAll, SelectFiles, Lists, Rows;
    if r in s.records {
      var files := SelectFiles(s.records[r], limit, file);
      assert Mid(CatState(s, [])) && r in s.layout;
      SelectionLists(s, r, limit, file);
      ClearFilesStored(c, CatState(s, []), r, files, force, dry, removable, false);
      var cs' := ClearFiles(CatState(s, []), r, files, force, dry, removable, false).0;
      RefreshAllStored(c, cs'.store, cs'.queue);
    }
  }

  // ---------- Polling ----------

  lemma TransferStepStored(c: seq<Location>, cs: CatState, id: nat, status: TransferStatus)
    requires Mid(cs) && Stored(c, cs.store) && id < |cs.store.transfers| && !cs.store.transfers[id].finished
    requires status.Done? ==> cs.store.transfers[id].newFilename in cs.store.disk
    ensures Stored(c, TransferStep(cs, id, status).store)
  {
    hide Mid, Reversible, TagTableTrue, TagsTrue, Holds, CacheSound;
    var s, t := cs.store, cs.store.transfers[id];
    var s1 := s.(transfers := s.transfers[id := t.(status := status, finished := t.finished || Finishes(status))]);
    SameTagTable(c, s, s1);
    assert Stored(c, s1);
    if status.Done? && t.file in s.tags && !t.action.ClearHot? {
      var row := RowOfTransfer(cs, id);
      assert Carries(c, t, row);
      FileTrue(c, s, t.record, row);
      DoneTrue(c, s, t, row);
      MidVersions(cs);
      RetagStored(c, s1, CopyAdded(cs, t.record, t.file, t.action, t.newFilename).store.tags[t.file], s.disk, t.record, row);
    }
  }

  lemma RowOfTransfer(cs: CatState, id: nat) returns (row: FileRow)
    requires Mid(cs) && id < |cs.store.transfers| && !cs.store.transfers[id].finished
    ensures Holds(cs.store.layout, cs.store.transfers[id].record, row) && row.id == cs.store.transfers[id].file
  {
    hide OneVersion, CacheSound, Holds;
    row :| TransferFits(cs.store.layout, cs.store.tags, cs.store.transfers[id], row);
  }

  /** The tags of a file once its copy was delivered. */
  lemma DoneTrue(c: seq<Location>, s: Store, t: Transfer, row: FileRow)
    requires t.file in s.tags && row.id == t.file && TagsTrue(c, s.tags[t.file], s.disk, row)
    requires Carries(c, t, row) && t.newFilename in s.disk
    ensures TagsTrue(c, CopyAdded(CatState(s, []), t.record, t.file, t.action, t.newFilename).store.tags[t.file], s.disk, row)
  {
  }

  lemma {:induction false} TransferLoopStored(c: seq<Location>, cs: CatState, order: seq<nat>, answers: nat -> TransferStatus)
    requires Mid(cs) && Stored(c, cs.store) && Ongoing(cs.store, order) && Truthful(cs.store, order, answers)
    ensures Stored(c, TransferLoop(cs, order, answers).store)
    decreases |order|
  {
    hide Mid, Stored, TransferStep;
    if order != [] {
      var next := TransferStep(cs, order[0], answers(order[0]));
      TransferStepKeeps(cs, order[0], answers(order[0]));
      TransferStepStored(c, cs, order[0], answers(order[0]));
      StepLeaves(cs, order[0], answers(order[0]));
      assert forall k | 0 <= k < |order[1..]| :: order[1..][k] == order[k + 1];
      TransferLoopStored(c, next, order[1..], answers);
    }
  }

  lemma StepLeaves(cs: CatState, id: nat, status: TransferStatus)
    requires id < |cs.store.transfers|
    ensures var s, s' := cs.store, TransferStep(cs, id, status).store;
            && s'.disk == s.disk && |s'.transfers| == |s.transfers|
            && forall i | 0 <= i < |s.transfers| && i != id :: s'.transfers[i] == s.transfers[i]
  {
  }

  lemma TransfersProcessedStored(c: seq<Location>, s: Store, order: seq<nat>, answers: nat -> TransferStatus)
    requires Inv(s) && Stored(c, s) && Ongoing(s, order) && Truthful(s, order, answers)
    ensures Stored(c, TransfersProcessed(s, order, answers))
  {
    hide Stored, TransferLoop, RefreshAll;
    TransferLoopStored(c, CatState(s, []), order, answers);
    var cs := TransferLoop(CatState(s, []), order, answers);
    RefreshAllStored(c, cs.store, cs.queue);
  }

  // ---------- Completion ----------

  lemma {:induction false} RunningLoopLeaves(s: Store, action: Action, ids: seq<nat>)
    requires forall k | 0 <= k < |ids| :: ids[k] < |s.requests|
    ensures var s' := RunningLoop(s, action, ids); s' == s.(requests := s'.requests, records := s'.records)
    decreases |ids|
  {
    hide SaveAvailability, IndicesArchived, Resolved, CountFailed;
    if ids != [] {
      RunningLoopLeaves(RunningStep(s, action, ids[0]), action, ids[1..]);
    }
  }

  lemma RunningCheckedStored(c: seq<Location>, s: Store)
    requires Stored(c, s)
    ensures Stored(c, RunningChecked(s))
  {
    hide Stored, RunningLoop;
    RunningLoopLeaves(s, Stage, RequestIds(s.requests, Started, Stage));
    var s1 := CheckRunningAction(s, Stage);
    RunningLoopLeaves(s1, Archive, RequestIds(s1.requests, Started, Archive));
    var s2 := CheckRunningAction(s1, Archive);
    RunningLoopLeaves(s2, ClearHot, RequestIds(s2.requests, Started, ClearHot));
    SameTablesStored(c, s, RunningChecked(s));
  }

  // ---------- Runs ----------

  /** The answers of a step claim no copy that is not there. */
  ghost predicate Faithful(s: Store, step: Step)
    requires Enabled(s, step)
  {
    match step
    case Submit(envs) => forall a, id :: Honest(s, envs(a, id))
    case Poll(order, answers) => Truthful(s, order, answers)
    case Move(_, _, _, _, env, _, _) => Honest(s, env)
    case _ => true
  }

  ghost predicate FaithfulRun(c: Config, s: Store, steps: seq<Step>)
    requires Possible(c, s, steps)
    decreases |steps|
  {
    steps == [] || (Faithful(s, steps[0]) && FaithfulRun(c, Next(c, s, steps[0]), steps[1..]))
  }

  lemma NextStored(c: Config, s: Store, step: Step)
    requires Inv(s) && Stored(c.locations, s) && Enabled(s, step) && Faithful(s, step)
    ensures Stored(c.locations, Next(c, s, step))
  {
    hide Inv, Stored, RunningChecked, RecordMoved, RecordCleared, SubmittedChecked, TransfersProcessed, Ongoing, Truthful;
    match step
    case AskStage(r, file, emailValid) => SameTablesStored(c.locations, s, Next(c, s, step));
    case AskArchive(r, file) => SameTablesStored(c.locations, s, Next(c, s, step));
    case Submit(envs) => SubmittedCheckedStored(c, s, envs);
    case Complete => RunningCheckedStored(c.locations, s);
    case Poll(order, answers) => TransfersProcessedStored(c.locations, s, order, answers);
    case Move(action, r, limit, o, env, budget, file) =>
      RecordMovedStored(c.locations, s, r, limit, action, o, env, budget, file);
    case Clear(r, limit, force, dry, removable, file) =>
      RecordClearedStored(c.locations, s, r, limit, force, dry, removable, file);
    case Appear(url) => AppearStored(c.locations, s, url);
  }

  lemma AppearStored(c: seq<Location>, s: Store, url: string)
    requires Stored(c, s)
    ensures Stored(c, s.(disk := s.disk + {url}))
  {
    SameTagTable(c, s, s.(disk := s.disk + {url}));
  }

  lemma {:induction false} RunStored(c: Config, s: Store, steps: seq<Step>)
    requires Inv(s) && Stored(c.locations, s) && Possible(c, s, steps) && FaithfulRun(c, s, steps)
    ensures Stored(c.locations, End(c, s, steps))
    decreases |steps|
  {
    hide Inv, Stored, Next, Enabled, Faithful;
    if steps != [] {
      NextKeeps(c, s, steps[0]);
      NextStored(c, s, steps[0]);
      RunStored(c, Next(c, s, steps[0]), steps[1..]);
    }
  }

  /** A file marked as removed has a cold copy on the storage, and every other file has its hot copy there. */
  ghost predicate Kept(s: Store, row: FileRow) {
    && row.id in s.tags
    && var t := s.tags[row.id];
    && (t.hotDeleted ==> t.cold.Some?)
    && (t.cold.Some? ==> t.cold.value in s.disk)
    && (!t.hotDeleted ==> row.uri in s.disk)
  }

  ghost predicate HotCopies(s: Store) {
    forall r, row | Holds(s.layout, r, row) :: row.uri in s.disk
  }

  /** No data loss: on a reversible table of locations, and if no copy is claimed that is not there, every file is kept. */
  lemma NoDataLoss(c: Config, s0: Store, steps: seq<Step>, r: RecordId, row: FileRow)
    requires Imported(s0) && HotCopies(s0) && Reversible(c.locations, s0.layout)
    requires Possible(c, s0, steps) && FaithfulRun(c, s0, steps) && Holds(End(c, s0, steps).layout, r, row)
    ensures Kept(End(c, s0, steps), row)
  {
    hide FindUrl, Reversible;
    ImportedInv(s0);
    assert Stored(c.locations, s0);
    RunKeeps(c, s0, steps);
    RunStored(c, s0, steps);
    FileTrue(c.locations, End(c, s0, steps), r, row);
  }

  lemma SelectedHeld(l: Layout, name: string, row: FileRow)
    requires row in SelectedBy(l, name)
    ensures row in Rows(l)
  {
    NamedHeld(l.indices, name, row);
  }

  lemma {:induction false} NamedHeld(indices: seq<IndexRow>, name: string, row: FileRow)
    ensures row in NamedRows(indices, name) ==> row in IndexRows(indices)
  {
    if indices != [] {
      NamedHeld(indices[1..], name, row);
    }
  }

  lemma HasDestination(c: seq<Location>, s: Store, r: RecordId, row: FileRow)
    requires Inv(s) && Stored(c, s) && r in s.layout && row in Rows(s.layout[r]) && TagsOf(s.tags, row.id).hotDeleted
    requires Archivable(c, row.uri) ==> FindUrl(c, Stage, FindUrl(c, Archive, row.uri).value) !in {None, Some("")}
    ensures Destination(c, FreshFile(row, s.tags), Stage).Some?
  {
    hide FindUrl, Reversible;
    assert Holds(s.layout, r, row);
    FileTrue(c, s, r, row);
    assert s.tags[row.id].hotDeleted && s.tags[row.id].cold.Some?;
  }

  /** Where the tags are true and every cold URL leads somewhere, every removed file can be staged, as draining demands. */
  lemma StoredIsStageable(c: seq<Location>, s: Store)
    requires Inv(s) && Stored(c, s)
    requires forall r, row | Holds(s.layout, r, row) && Archivable(c, row.uri) ::
               FindUrl(c, Stage, FindUrl(c, Archive, row.uri).value) !in {None, Some("")}
    ensures Stageable(c, s)
  {
    hide Inv, Stored, Destination, SelectedBy, Archivable, FindUrl;
    forall k, row | 0 <= k < |s.requests| && s.requests[k].record in s.layout
                    && row in SelectedBy(s.layout[s.requests[k].record], s.requests[k].file) && TagsOf(s.tags, row.id).hotDeleted
      ensures Destination(c, FreshFile(row, s.tags), Stage).Some? {
      var r := s.requests[k].record;
      SelectedHeld(s.layout[r], s.requests[k].file, row);
      assert Holds(s.layout, r, row);
      HasDestination(c, s, r, row);
    }
  }
}
