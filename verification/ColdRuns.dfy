/** Runs of the cold storage: any sequence of user, operator, scheduler and storage steps. */
module ColdRuns {
  import opened Options
  import opened ColdTypes
  import opened ColdModel
  import opened Locations
  import opened Catalog
  import opened Manager
  import opened Service
  import opened ColdInvariant
  import opened ColdPreservation

  /** One step; the answers of the outside world are part of it. */
  datatype Step =
    | AskStage(r: RecordId, file: string, emailValid: bool)
    | AskArchive(r: RecordId, file: string)
    | Submit(envs: (Action, nat) -> Env)
    | Complete
    | Poll(order: seq<nat>, answers: nat -> TransferStatus)
    | Move(action: Action, r: RecordId, limit: int, o: MoveOptions, env: Env, budget: int, file: string)
    | Clear(r: RecordId, limit: int, force: bool, dry: bool, removable: string -> bool, file: string)
    | Appear(url: string)

  /** The storage and the transfer system may answer anything. */
  ghost predicate Enabled(s: Store, step: Step) {
    match step
    case AskStage(r, _, _) => r in s.records
    case AskArchive(r, _) => r in s.records
    case Submit(_) => true
    case Complete => true
    case Poll(order, _) => Ongoing(s, order)
    case Move(action, _, _, _, _, _, _) => !action.ClearHot?
    case Clear(_, _, _, _, _, _) => true
    case Appear(_) => true
  }

  ghost function Next(c: Config, s: Store, step: Step): Store
    requires Enabled(s, step)
  {
    match step
    case AskStage(r, file, emailValid) => UserStage(s, r, file, emailValid)
    case AskArchive(r, file) => s.(requests := s.requests + [Request(r, Archive, file, Submitted, 0, 0, 0)])
    case Submit(envs) => SubmittedChecked(c, s, envs)
    case Complete => RunningChecked(s)
    case Poll(order, answers) => TransfersProcessed(s, order, answers)
    case Move(action, r, limit, o, env, budget, file) =>
      RecordMoved(c.locations, CatState(s, []), r, limit, action, o, env, budget, file).0.store
    case Clear(r, limit, force, dry, removable, file) =>
      RecordCleared(CatState(s, []), r, limit, force, dry, removable, file).0.store
    case Appear(url) => s.(disk := s.disk + {url})
  }

  ghost predicate Possible(c: Config, s: Store, steps: seq<Step>)
    decreases |steps|
  {
    steps == [] || (Enabled(s, steps[0]) && Possible(c, Next(c, s, steps[0]), steps[1..]))
  }

  ghost function End(c: Config, s: Store, steps: seq<Step>): Store
    requires Possible(c, s, steps)
    decreases |steps|
  {
    if steps == [] then s else End(c, Next(c, s, steps[0]), steps[1..])
  }

  /** Freshly imported records: nothing is archived or removed, and nothing was asked for. */
  ghost predicate Imported(s: Store) {
    && OneVersion(s.layout)
    && s.records.Keys == s.layout.Keys
    && (forall r, row | Holds(s.layout, r, row) :: row.id in s.tags && s.tags[row.id] == Tags(None, false))
    && (forall r | r in s.layout :: Agrees(s, r))
    && s.transfers == [] && s.requests == []
  }

  lemma ImportedInv(s: Store)
    requires Imported(s)
    ensures Inv(s)
  {
    forall r | r in s.layout ensures CacheSound(s, r) {
      DetailsMention(s, r);
      assert forall row | row in Rows(s.layout[r]) :: Holds(s.layout, r, row);
    }
  }

  lemma NextKeeps(c: Config, s: Store, step: Step)
    requires Inv(s) && Enabled(s, step)
    ensures Inv(Next(c, s, step))
  {
    hide Inv, UserStage, RunningChecked, RecordMoved, RecordCleared, SubmittedChecked, TransfersProcessed, Ongoing;
    match step
    case AskStage(r, file, emailValid) => UserStageKeeps(s, r, file, emailValid);
    case AskArchive(r, file) => AskArchiveKeeps(s, r, file);
    case Submit(envs) => SubmittedCheckedKeeps(c, s, envs);
    case Complete => RunningCheckedKeeps(s);
    case Poll(order, answers) => TransfersProcessedKeeps(s, order, answers);
    case Move(action, r, limit, o, env, budget, file) =>
      RecordMovedKeeps(c.locations, s, r, limit, action, o, env, budget, file);
    case Clear(r, limit, force, dry, removable, file) =>
      RecordClearedKeeps(s, r, limit, force, dry, removable, file);
    case Appear(url) => AppearKeeps(s, url);
  }

  lemma AskArchiveKeeps(s: Store, r: RecordId, file: string)
    requires Inv(s) && r in s.records
    ensures Inv(s.(requests := s.requests + [Request(r, Archive, file, Submitted, 0, 0, 0)]))
  {
    hide Rows, Agrees;
    var s' := s.(requests := s.requests + [Request(r, Archive, file, Submitted, 0, 0, 0)]);
    forall q | q in s.layout ensures CacheSound(s', q) {
      assert CacheSound(s, q);
      RequestCache(s, Request(r, Archive, file, Submitted, 0, 0, 0), q);
    }
  }

  lemma RequestCache(s: Store, request: Request, q: RecordId)
    requires CacheSound(s, q) && request.action == Archive
    ensures CacheSound(s.(requests := s.requests + [request]), q)
  {
    var s' := s.(requests := s.requests + [request]);
    AgreesFrame(s, s', q);
    assert StageTransferring(s', q) == StageTransferring(s, q);
    assert StageRequested(s', q) ==> StageRequested(s, q);
  }

  lemma AppearKeeps(s: Store, url: string)
    requires Inv(s)
    ensures Inv(s.(disk := s.disk + {url}))
  {
    hide OneVersion, TransfersSound, Agrees, QuietWhenOnline, Holds;
    forall q | q in s.layout ensures CacheSound(s.(disk := s.disk + {url}), q) {
      AppearCache(s, url, q);
    }
  }

  lemma AppearCache(s: Store, url: string, q: RecordId)
    requires CacheSound(s, q)
    ensures CacheSound(s.(disk := s.disk + {url}), q)
  {
    var s' := s.(disk := s.disk + {url});
    assert StagePending(s', q) == StagePending(s, q);
    AgreesFrame(s, s', q);
  }

  lemma {:induction false} RunKeeps(c: Config, s: Store, steps: seq<Step>)
    requires Inv(s) && Possible(c, s, steps)
    ensures Inv(End(c, s, steps))
    decreases |steps|
  {
    hide Inv, Next, Enabled;
    if steps != [] {
      NextKeeps(c, s, steps[0]);
      RunKeeps(c, Next(c, s, steps[0]), steps[1..]);
    }
  }

  // ---------- Main results, over every run from imported records ----------

  /** No removed file without a cold tag: whatever the outside world answers and whatever the table of locations is, a
      file marked as removed from hot storage is tagged with a cold copy. */
  lemma RemovedFilesAreArchived(c: Config, s0: Store, steps: seq<Step>, r: RecordId, row: FileRow)
    requires Imported(s0) && Possible(c, s0, steps) && Holds(End(c, s0, steps).layout, r, row)
    ensures var s := End(c, s0, steps);
            row.id in s.tags && (s.tags[row.id].hotDeleted ==> s.tags[row.id].cold.Some?)
  {
    ImportedInv(s0);
    RunKeeps(c, s0, steps);
  }

  /** Cache agreement: between steps each record's cached tags, availabilities, index counters and details
      equal a recomputation from the tag table, and its counters are the numbers of its files. */
  lemma CacheAgrees(c: Config, s0: Store, steps: seq<Step>, r: RecordId, a: FileAvailability)
    requires Imported(s0) && Possible(c, s0, steps) && r in End(c, s0, steps).layout
    ensures var s := End(c, s0, steps);
            && r in s.records && Agrees(s, r)
            && Get(s.records[r].details, a) == Tally(Rows(s.layout[r]), s.tags, a)
            && (a in s.records[r].details <==> Tally(Rows(s.layout[r]), s.tags, a) > 0)
  {
    ImportedInv(s0);
    RunKeeps(c, s0, steps);
    DetailsTally(End(c, s0, steps), r, a);
  }

  /** Exclusivity: a file never has two unfinished transfers, of the same action or of opposite ones. */
  lemma TransfersExclusive(c: Config, s0: Store, steps: seq<Step>, i: nat, j: nat)
    requires Imported(s0) && Possible(c, s0, steps)
    requires var ts := End(c, s0, steps).transfers;
             i < j < |ts| && !ts[i].finished && !ts[j].finished
    ensures End(c, s0, steps).transfers[i].file != End(c, s0, steps).transfers[j].file
  {
    ImportedInv(s0);
    RunKeeps(c, s0, steps);
  }

  // ---------- Completion of requests ----------

  /** Every file of the indices of the record is archived, according to the tag table. */
  ghost predicate IndicesCold(s: Store, r: RecordId) {
    r in s.layout && forall row | row in IndexRows(s.layout[r].indices) :: TagsOf(s.tags, row.id).cold.Some?
  }

  /** When a started request is due for completion. */
  ghost predicate Due(s: Store, q: Request) {
    match q.action
    case Stage => !StagePending(s, q.record)
    case Archive => IndicesCold(s, q.record)
    case ClearHot => true
  }

  lemma {:induction false} IndexRowsHas(indices: seq<IndexRow>, row: FileRow)
    ensures row in IndexRows(indices) <==>
      exists i, k | 0 <= i < |indices| && 0 <= k < |indices[i].files| :: indices[i].files[k] == row
  {
    if indices != [] {
      IndexRowsHas(indices[1..], row);
      if i, k :| 0 <= i < |indices| && 0 <= k < |indices[i].files| && indices[i].files[k] == row {
        if i > 0 {
          assert indices[1..][i - 1].files[k] == row;
        }
      }
    }
  }

  lemma ArchivedMeansCold(s: Store, r: RecordId)
    requires r in s.layout && r in s.records && Agrees(s, r)
    ensures IndicesArchived(s.records[r]) <==> IndicesCold(s, r)
  {
    var record, indices := s.records[r], s.layout[r].indices;
    if IndicesArchived(record) {
      forall row | row in IndexRows(indices) ensures TagsOf(s.tags, row.id).cold.Some? {
        IndexRowsHas(indices, row);
        var i, k :| 0 <= i < |indices| && 0 <= k < |indices[i].files| && indices[i].files[k] == row;
        assert record.indices[i].files[k].tags.cold.Some?;
      }
    }
    if IndicesCold(s, r) {
      forall i, k | 0 <= i < |record.indices| && 0 <= k < |record.indices[i].files|
        ensures record.indices[i].files[k].tags.cold.Some?
      {
        IndexRowsHas(indices, indices[i].files[k]);
      }
    }
  }

  /** Recomputing the availability of a record gives "requested" exactly while staging work is pending. */
  lemma SavedAvailability(s: Store, r: RecordId)
    requires r in s.records
    ensures SaveAvailability(s, r).records[r].availability == Requested <==> StagePending(s, r)
  {
  }

  /** What completing started requests leaves alone. */
  ghost predicate SamePending(s: Store, s': Store) {
    && s'.layout == s.layout && s'.tags == s.tags && s'.transfers == s.transfers
    && |s'.requests| == |s.requests|
    && forall k | 0 <= k < |s.requests| ::
      && s'.requests[k].record == s.requests[k].record && s'.requests[k].action == s.requests[k].action
      && (s'.requests[k].status == Submitted <==> s.requests[k].status == Submitted)
  }

  lemma SamePendingHalf(s: Store, s': Store, r: RecordId)
    requires SamePending(s, s') && StagePending(s, r)
    ensures StagePending(s', r)
  {
    if StageRequested(s, r) {
      var i :| 0 <= i < |s.requests| && s.requests[i].record == r && s.requests[i].status == Submitted && s.requests[i].action == Stage;
      assert s'.requests[i].record == r;
    } else {
      var i :| 0 <= i < |s.transfers| && s.transfers[i].record == r && !s.transfers[i].finished && s.transfers[i].action == Stage;
      assert s'.transfers[i].record == r;
    }
  }

  lemma SamePendingDue(s: Store, s': Store, q: Request, q': Request)
    requires SamePending(s, s') && q'.record == q.record && q'.action == q.action
    ensures Due(s', q') == Due(s, q) && StagePending(s', q.record) == StagePending(s, q.record)
  {
    if StagePending(s, q.record) {
      SamePendingHalf(s, s', q.record);
    }
    if StagePending(s', q.record) {
      SamePendingHalf(s', s, q.record);
    }
  }

  /** One started request is completed exactly when it is due, and nothing else changes that matters. */
  ghost predicate StepExact(s: Store, id: nat, s': Store)
    requires id < |s.requests|
  {
    && |s'.requests| == |s.requests|
    && s'.requests == s.requests[id := s'.requests[id]]
    && s'.requests[id].record == s.requests[id].record && s'.requests[id].action == s.requests[id].action
    && s'.requests[id].status == (if Due(s, s.requests[id]) then Completed else Started)
    && s'.layout == s.layout && s'.tags == s.tags && s'.transfers == s.transfers
  }

  /** The store after a request's failures were counted. */
  function Counted(s: Store, id: nat): Store
    requires id < |s.requests|
  {
    s.(requests := s.requests[id := s.requests[id].(numFailed := CountFailed(s.transfers, s.requests[id].record))])
  }

  /** The two answers check_running can read for a stage request. */
  lemma StageAnswers(s: Store, id: nat)
    requires Inv(s) && id < |s.requests|
    ensures var r := s.requests[id].record;
            && r in s.records
            && (s.records[r].availability == Online ==> !StagePending(s, r))
            && (SaveAvailability(Counted(s, id), r).records[r].availability == Requested <==> StagePending(s, r))
  {
    hide Inv, StagePending, SaveAvailability, Counted;
    var r := s.requests[id].record;
    RequestResolves(s, id);
    RecordIsSound(s, r);
    CountedPending(s, id);
  }

  lemma CountedPending(s: Store, id: nat)
    requires id < |s.requests| && s.requests[id].record in s.records
    ensures var r := s.requests[id].record;
            SaveAvailability(Counted(s, id), r).records[r].availability == Requested <==> StagePending(s, r)
  {
    hide StagePending, SaveAvailability, CountFailed;
    var s0 := Counted(s, id);
    SamePendingDue(s, s0, s.requests[id], s0.requests[id]);
    SavedAvailability(s0, s.requests[id].record);
  }

  lemma StageStepExact(s: Store, id: nat)
    requires Inv(s) && id < |s.requests| && s.requests[id].status == Started && s.requests[id].action == Stage
    ensures StepExact(s, id, RunningStep(s, Stage, id))
  {
    hide Inv, StagePending, SaveAvailability, CountFailed, IndicesArchived, IndicesCold, Resolved;
    StageAnswers(s, id);
  }

  lemma RunningStepExact(s: Store, id: nat)
    requires Inv(s) && id < |s.requests| && s.requests[id].status == Started
    ensures StepExact(s, id, RunningStep(s, s.requests[id].action, id))
  {
    if s.requests[id].action == Stage {
      StageStepExact(s, id);
    } else {
      RequestResolves(s, id);
      RecordIsSound(s, s.requests[id].record);
      hide Inv, StagePending, SaveAvailability, CountFailed, IndicesArchived, IndicesCold, Resolved;
    }
  }

  lemma RecordIsSound(s: Store, r: RecordId)
    requires Inv(s) && r in s.records
    ensures s.records[r].availability == Online ==> !StagePending(s, r)
    ensures IndicesArchived(s.records[r]) <==> IndicesCold(s, r)
  {
    assert CacheSound(s, r);
    ArchivedMeansCold(s, r);
  }

  lemma RequestIdsLast(requests: seq<Request>, status: RequestStatus, action: Action)
    requires requests != []
    ensures var n := |requests| - 1;
            var last := if requests[n].status == status && requests[n].action == action then [n] else [];
            RequestIds(requests, status, action) == RequestIds(requests[..n], status, action) + last
  {
    var init := RequestIds(requests[..|requests| - 1], status, action);
    assert init + [] == init;
  }

  lemma {:induction false} RequestListed(requests: seq<Request>, status: RequestStatus, action: Action, i: nat)
    requires i < |requests|
    ensures i in RequestIds(requests, status, action) <==> requests[i].status == status && requests[i].action == action
  {
    hide RequestIds;
    var n := |requests| - 1;
    RequestIdsLast(requests, status, action);
    if i < n {
      RequestListed(requests[..n], status, action, i);
    }
  }

  lemma {:induction false} RequestIdsSorted(requests: seq<Request>, status: RequestStatus, action: Action)
    ensures var ids := RequestIds(requests, status, action); forall j, k | 0 <= j < k < |ids| :: ids[j] < ids[k]
  {
    hide RequestIds;
    if requests == [] {
      assert RequestIds(requests, status, action) == [] by { NoRequestIds(status, action); }
    } else {
      RequestIdsLast(requests, status, action);
      RequestIdsSorted(requests[..|requests| - 1], status, action);
    }
  }

  lemma NoRequestIds(status: RequestStatus, action: Action)
    ensures RequestIds([], status, action) == []
  {
  }

  lemma RequestIdsExact(requests: seq<Request>, status: RequestStatus, action: Action)
    ensures var ids := RequestIds(requests, status, action);
            && (forall k | 0 <= k < |ids| :: requests[ids[k]].status == status && requests[ids[k]].action == action)
            && (forall j, k | 0 <= j < k < |ids| :: ids[j] < ids[k])
            && (forall i | 0 <= i < |requests| && requests[i].status == status && requests[i].action == action :: i in ids)
  {
    hide RequestIds;
    var ids := RequestIds(requests, status, action);
    RequestIdsSorted(requests, status, action);
    forall i: nat | i < |requests|
      ensures i in ids <==> requests[i].status == status && requests[i].action == action {
      RequestListed(requests, status, action, i);
    }
    forall k | 0 <= k < |ids| ensures requests[ids[k]].status == status && requests[ids[k]].action == action {
      assert ids[k] in ids;
    }
  }

  lemma SamePendingJoin(s: Store, s1: Store, s2: Store)
    requires SamePending(s, s1) && SamePending(s1, s2)
    ensures SamePending(s, s2)
  {
  }

  /** Started requests with that action, in table order. */
  ghost predicate ListsStarted(s: Store, action: Action, ids: seq<nat>) {
    && (forall k | 0 <= k < |ids| ::
          ids[k] < |s.requests| && s.requests[ids[k]].status == Started && s.requests[ids[k]].action == action)
    && (forall j, k | 0 <= j < k < |ids| :: ids[j] < ids[k])
  }

  /** The first of the listed requests is answered; the others are still started. */
  lemma FirstAnswered(s: Store, action: Action, ids: seq<nat>)
    requires Inv(s) && ids != [] && ListsStarted(s, action, ids)
    ensures var next, rest := RunningStep(s, action, ids[0]), ids[1..];
            && Inv(next) && SamePending(s, next) && StepExact(s, ids[0], next) && ids[0] !in rest
            && ListsStarted(next, action, rest)
  {
    hide Inv, RunningStep, Due;
    RunningStepExact(s, ids[0]);
    RunningStepKeeps(s, action, ids[0]);
    var next, rest := RunningStep(s, action, ids[0]), ids[1..];
    forall k | 0 <= k < |rest| ensures rest[k] != ids[0] && next.requests[rest[k]] == s.requests[rest[k]] {
      assert rest[k] == ids[k + 1] && ids[0] < ids[k + 1];
    }
  }

  lemma {:induction false} RunningLoopPending(s: Store, action: Action, ids: seq<nat>)
    requires Inv(s) && ListsStarted(s, action, ids)
    ensures SamePending(s, RunningLoop(s, action, ids))
    decreases |ids|
  {
    hide Inv, RunningStep, StepExact;
    if ids != [] {
      FirstAnswered(s, action, ids);
      var next := RunningStep(s, action, ids[0]);
      RunningLoopPending(next, action, ids[1..]);
      SamePendingJoin(s, next, RunningLoop(next, action, ids[1..]));
    }
  }

  /** What the loop does to one request. */
  lemma {:induction false} RunningLoopAt(s: Store, action: Action, ids: seq<nat>, i: nat)
    requires Inv(s) && i < |s.requests| && ListsStarted(s, action, ids)
    ensures var q := RunningLoop(s, action, ids).requests[i];
            if i in ids then q.status == (if Due(s, s.requests[i]) then Completed else Started) else q == s.requests[i]
    decreases |ids|
  {
    hide Inv, RunningStep, SamePending, Due;
    if ids != [] {
      FirstAnswered(s, action, ids);
      var next, rest := RunningStep(s, action, ids[0]), ids[1..];
      RunningLoopAt(next, action, rest, i);
      SamePendingDue(s, next, s.requests[i], next.requests[i]);
      assert ids == [ids[0]] + rest;
    }
  }

  lemma RunningLoopExact(s: Store, action: Action, ids: seq<nat>)
    requires Inv(s) && ListsStarted(s, action, ids)
    ensures var s' := RunningLoop(s, action, ids);
            && SamePending(s, s')
            && forall i | 0 <= i < |s.requests| ::
              if i in ids then s'.requests[i].status == (if Due(s, s.requests[i]) then Completed else Started)
              else s'.requests[i] == s.requests[i]
  {
    hide Inv, RunningLoop, SamePending, Due;
    RunningLoopPending(s, action, ids);
    forall i: nat | i < |s.requests|
      ensures var q := RunningLoop(s, action, ids).requests[i];
              if i in ids then q.status == (if Due(s, s.requests[i]) then Completed else Started) else q == s.requests[i] {
      RunningLoopAt(s, action, ids, i);
    }
  }

  lemma RunningActionExact(s: Store, action: Action)
    requires Inv(s)
    ensures var s' := CheckRunningAction(s, action);
            && Inv(s') && SamePending(s, s')
            && forall i | 0 <= i < |s.requests| ::
              if s.requests[i].status == Started && s.requests[i].action == action
              then s'.requests[i].status == (if Due(s, s.requests[i]) then Completed else Started)
              else s'.requests[i] == s.requests[i]
  {
    hide Inv, RunningStep, Due;
    var ids := RequestIds(s.requests, Started, action);
    RequestIdsExact(s.requests, Started, action);
    RunningLoopExact(s, action, ids);
    RunningLoopKeeps(s, action, ids);
    assert forall i | i in ids :: s.requests[i].status == Started && s.requests[i].action == action;
  }

  /** Completion is exact: a started stage request is completed if and only if its record has no unfinished
      stage transfer and no stage request still submitted; a started archive request if and only if every
      indexed file of the record has a cold copy. No other request changes status. */
  lemma CompletionExact(s: Store, i: nat)
    requires Inv(s) && i < |s.requests|
    ensures var s' := RunningChecked(s);
            && SamePending(s, s')
            && s'.requests[i].status == (if s.requests[i].status == Started && Due(s', s'.requests[i]) then Completed
                                         else s.requests[i].status)
  {
    hide Inv, Due, CheckRunningAction;
    RunningActionExact(s, Stage);
    var s1 := CheckRunningAction(s, Stage);
    RunningActionExact(s1, Archive);
    var s2 := CheckRunningAction(s1, Archive);
    RunningActionExact(s2, ClearHot);
    var s3 := CheckRunningAction(s2, ClearHot);
    SamePendingDue(s, s1, s.requests[i], s1.requests[i]);
    SamePendingDue(s1, s2, s1.requests[i], s2.requests[i]);
    SamePendingDue(s2, s3, s2.requests[i], s3.requests[i]);
  }

  /** Completion safety over whole runs. */
  lemma CompletionSafety(c: Config, s0: Store, steps: seq<Step>, i: nat)
    requires Imported(s0) && Possible(c, s0, steps) && i < |End(c, s0, steps).requests|
    requires var s := End(c, s0, steps); s.requests[i].action == Stage && s.requests[i].status == Started
    ensures var s' := Next(c, End(c, s0, steps), Complete);
            s'.requests[i].status == Completed <==> !StagePending(s', s'.requests[i].record)
  {
    hide Inv, RunningChecked, Imported;
    ImportedInv(s0);
    RunKeeps(c, s0, steps);
    CompletionExact(End(c, s0, steps), i);
  }

  // ---------- Direct files are not looked at ----------

  /** A storage that knows of no copy and takes no transfer. */
  const REFUSING := Env((url: string) => false, (id: FileId) => false)

  lemma {:induction false} RefusedFiles(c: seq<Location>, run: MoveRun, r: RecordId, files: seq<CachedFile>, action: Action,
                                        o: MoveOptions, budget: int)
    ensures var end := MoveFiles(c, run, r, files, action, o, REFUSING, budget);
            end.cs == run.cs && end.issued == run.issued && end.registered == run.registered
    decreases |files|
  {
    hide Destination, IsScheduled, IsQos;
    if files != [] {
      var next := MoveStep(c, run, r, files[0], action, o, REFUSING);
      if !Exhausted(next, budget) {
        RefusedFiles(c, next, r, files[1..], action, o, budget);
      }
    }
  }

  lemma RefusedStep(c: Config, s: Store, q: Request, budget: int)
    requires s.requests == [q] && budget >= 1
    ensures SubmitStep(c, CatState(s, []), Archive, 0, budget, 0, REFUSING)
         == (CatState(s.(requests := [q.(status := Started)]), []), 0)
  {
    hide MoveFiles, SelectFiles;
    if q.record in s.records {
      RefusedFiles(c.locations, MoveRun(CatState(s, []), [], false, 0), q.record, SelectFiles(s.records[q.record], 0, q.file),
                   Archive, SERVICE_OPTIONS, budget);
    }
    assert Charged(q, [], false) == q.(status := Started);
    assert [q][0 := q.(status := Started)] == [q.(status := Started)];
  }

  /** A pass over one submitted archive request starts it, although everything is refused. */
  lemma RefusedPass(c: Config, s: Store, q: Request)
    requires s.requests == [q] && q.action == Archive && q.status == Submitted && s.transfers == [] && c.archiveThreshold >= 1
    ensures SubmittedChecked(c, s, (a: Action, id: nat) => REFUSING) == s.(requests := [q.(status := Started)])
  {
    hide RequestIds, SubmitStep;
    OneRequest(q, Stage);
    OneRequest(q, Archive);
    RefusedStep(c, s, q, c.archiveThreshold);
    assert [0][1..] == [];
  }

  lemma OneRequest(q: Request, action: Action)
    ensures RequestIds([q], Submitted, action) == if q.status == Submitted && q.action == action then [0] else []
  {
    assert [q][..0] == [];
  }

  lemma ThenStep(c: Config, s: Store, step: Step, rest: seq<Step>)
    requires Enabled(s, step) && Possible(c, Next(c, s, step), rest)
    ensures Possible(c, s, [step] + rest) && End(c, s, [step] + rest) == End(c, Next(c, s, step), rest)
  {
    hide Enabled, Next;
    assert ([step] + rest)[1..] == rest;
  }

  lemma ThreeSteps(c: Config, s: Store, a: Step, b: Step, d: Step)
    requires Enabled(s, a) && Enabled(Next(c, s, a), b) && Enabled(Next(c, Next(c, s, a), b), d)
    ensures Possible(c, s, [a, b, d]) && End(c, s, [a, b, d]) == Next(c, Next(c, Next(c, s, a), b), d)
  {
    hide Enabled, Next;
    ThenStep(c, Next(c, Next(c, s, a), b), d, []);
    assert [d] + [] == [d] && [b] + [d] == [b, d] && [a] + [b, d] == [a, b, d];
    ThenStep(c, Next(c, s, a), b, [d]);
    ThenStep(c, s, a, [b, d]);
  }

  /** An archive request of an imported record with only direct files: with a storage that refuses everything, the next two
      passes start and complete it, although no file has a cold copy. */
  lemma ArchiveCompletionIgnoresDirectFiles(c: Config, s0: Store, r: RecordId, row: FileRow)
    requires Imported(s0) && Holds(s0.layout, r, row) && IndexRows(s0.layout[r].indices) == [] && c.archiveThreshold >= 1
    ensures r in s0.records
    ensures var steps := [AskArchive(r, ""), Submit((a: Action, id: nat) => REFUSING), Complete];
            && Possible(c, s0, steps)
            && var s := End(c, s0, steps);
            |s.requests| == 1 && s.requests[0].status == Completed && TagsOf(s.tags, row.id).cold.None?
  {
    hide Inv, SubmittedChecked, RunningChecked, Agrees;
    var ask, submit := AskArchive(r, ""), Submit((a: Action, id: nat) => REFUSING);
    var q := Request(r, Archive, "", Submitted, 0, 0, 0);
    ImportedInv(s0);
    var s1 := Next(c, s0, ask);
    assert s1 == s0.(requests := [q]);
    NextKeeps(c, s0, ask);
    RefusedPass(c, s1, q);
    var s2 := Next(c, s1, submit);
    NextKeeps(c, s1, submit);
    CompletionExact(s2, 0);
    ThreeSteps(c, s0, ask, submit, Complete);
  }
}
