/** The availability shown for a record, read off the tag table, the transfers and the requests. */
module ColdAvailability {
  import opened ColdTypes
  import opened ColdModel
  import opened Locations
  import opened Catalog
  import opened Manager
  import opened Service
  import opened ColdInvariant
  import opened ColdPreservation
  import opened ColdRuns
  import opened ColdBudget
  import opened ColdDrain

  ghost predicate Removed(s: Store, row: FileRow) {
    row.id in s.tags && s.tags[row.id].hotDeleted
  }

  /** A stage request for the record is submitted, or a stage transfer of one of its files is not finished. */
  ghost predicate Awaited(s: Store, r: RecordId) {
    || (exists q :: q in s.requests && q.record == r && q.action == Stage && q.status == Submitted)
    || (exists t :: t in s.transfers && t.record == r && t.action == Stage && !t.finished)
  }

  /** Unless the record is shown as requested: it is on demand if all its files (and there are some) are removed, partial if
      some but not all are, and online if none is. */
  ghost predicate Truthful(s: Store, r: RecordId)
    requires r in s.layout && r in s.records
  {
    var rows, shown := Rows(s.layout[r]), s.records[r].availability;
    shown != Requested ==>
      && (shown == OnDemand <==> rows != [] && forall row | row in rows :: Removed(s, row))
      && (shown == Partial <==> (exists row :: row in rows && Removed(s, row)) && exists row :: row in rows && !Removed(s, row))
      && (shown == Online <==> forall row | row in rows :: !Removed(s, row))
  }

  /** The record is shown as requested exactly while staging is awaited, and truthfully otherwise. */
  ghost predicate Shown(s: Store, r: RecordId)
    requires r in s.layout && r in s.records
  {
    (s.records[r].availability == Requested <==> Awaited(s, r)) && Truthful(s, r)
  }

  lemma PendingIsAwaited(s: Store, r: RecordId)
    ensures StagePending(s, r) <==> Awaited(s, r)
  {
    if q :| q in s.requests && q.record == r && q.action == Stage && q.status == Submitted {
      var i :| 0 <= i < |s.requests| && s.requests[i] == q;
      assert StageRequested(s, r);
    }
    if t :| t in s.transfers && t.record == r && t.action == Stage && !t.finished {
      var i :| 0 <= i < |s.transfers| && s.transfers[i] == t;
      assert StageTransferring(s, r);
    }
    if i :| 0 <= i < |s.requests| && s.requests[i].record == r && s.requests[i].status == Submitted && s.requests[i].action == Stage {
      assert s.requests[i] in s.requests;
    }
    if i :| 0 <= i < |s.transfers| && s.transfers[i].record == r && !s.transfers[i].finished && s.transfers[i].action == Stage {
      assert s.transfers[i] in s.transfers;
    }
  }

  /** The details of an up-to-date record mention exactly the availabilities that its files have. */
  lemma DetailsSay(s: Store, r: RecordId)
    requires r in s.layout && r in s.records && Agrees(s, r)
    ensures FileOnDemand in s.records[r].details <==> exists row :: row in Rows(s.layout[r]) && Removed(s, row)
    ensures FileOnline in s.records[r].details <==> exists row :: row in Rows(s.layout[r]) && !Removed(s, row)
  {
    DetailsTally(s, r, FileOnDemand);
    DetailsTally(s, r, FileOnline);
    TallyPositive(Rows(s.layout[r]), s.tags, FileOnDemand);
    TallyPositive(Rows(s.layout[r]), s.tags, FileOnline);
    hide Rows, Agrees, Tally;
    assert forall row :: FreshFile(row, s.tags).availability == FileOnDemand <==> Removed(s, row);
    assert forall row :: FreshFile(row, s.tags).availability == FileOnline <==> !Removed(s, row);
  }

  /** The availability follows from the details. */
  predicate FromDetails(record: Record) {
    record.availability == Requested || record.availability == BaseAvailability(record.details)
  }

  lemma TruthfulExact(s: Store, r: RecordId)
    requires r in s.layout && r in s.records && Agrees(s, r)
    ensures Truthful(s, r) <==> FromDetails(s.records[r])
  {
    DetailsSay(s, r);
    hide Rows, Agrees, Removed;
    var rows := Rows(s.layout[r]);
    assert rows != [] <==> exists row :: row in rows by {
      if rows != [] { assert rows[0] in rows; }
    }
  }

  lemma CheckedIsShown(s: Store, r: RecordId)
    requires r in s.layout && r in s.records && Agrees(s, r)
    requires s.records[r].availability == CheckedAvailability(s, r, s.records[r].details)
    ensures Shown(s, r)
  {
    hide Agrees, Truthful, Awaited, StagePending;
    PendingIsAwaited(s, r);
    TruthfulExact(s, r);
  }

  // ---------- The counters of an index ----------

  function SumSizes(rows: seq<FileRow>): nat {
    if rows == [] then 0 else rows[0].size + SumSizes(rows[1..])
  }

  lemma {:induction false} TotalIsSum(rows: seq<FileRow>)
    ensures TotalSize(rows) == SumSizes(rows)
  {
    if rows != [] {
      TotalIsSum(rows[..|rows| - 1]);
      SumLast(rows);
    }
  }

  lemma {:induction false} SumLast(rows: seq<FileRow>)
    requires rows != []
    ensures SumSizes(rows) == SumSizes(rows[..|rows| - 1]) + rows[|rows| - 1].size
  {
    if |rows| > 1 {
      SumLast(rows[1..]);
      assert rows[1..][..|rows| - 2] == rows[..|rows| - 1][1..];
    }
  }

  /** The positions of the removed files, or of the others. */
  ghost function Places(s: Store, rows: seq<FileRow>, removed: bool): set<nat> {
    set k: nat | k < |rows| && Removed(s, rows[k]) == removed
  }

  function Kind(removed: bool): FileAvailability {
    if removed then FileOnDemand else FileOnline
  }

  lemma {:induction false} CountedPlaces(s: Store, rows: seq<FileRow>, removed: bool)
    ensures Tally(rows, s.tags, Kind(removed)) == |Places(s, rows, removed)|
  {
    if rows != [] {
      var n := |rows| - 1;
      CountedPlaces(s, rows[..n], removed);
      assert FreshFile(rows[n], s.tags).availability == Kind(removed) <==> Removed(s, rows[n]) == removed;
      hide Removed, FreshFile, Kind;
      if Removed(s, rows[n]) == removed {
        assert Places(s, rows, removed) == Places(s, rows[..n], removed) + {n};
      } else {
        assert Places(s, rows, removed) == Places(s, rows[..n], removed);
      }
    }
  }

  /** One entry of a cached list of files: the row and its tags, on demand exactly if it is marked removed. */
  ghost predicate Entered(s: Store, row: FileRow, f: CachedFile) {
    && f.row == row && f.tags.hotDeleted == Removed(s, row)
    && (row.id in s.tags ==> f.tags == s.tags[row.id])
    && (f.availability == FileOnDemand <==> Removed(s, row)) && (f.availability == FileOnline <==> !Removed(s, row))
  }

  /** What is kept for an index of an up-to-date record: its key, how many files it has and how large they are together,
      how many of them are online and on demand, and each file with its tags. */
  lemma IndexIsCounted(s: Store, r: RecordId, i: nat)
    requires r in s.layout && r in s.records && Agrees(s, r) && i < |s.layout[r].indices|
    ensures |s.records[r].indices| == |s.layout[r].indices|
    ensures var row, index := s.layout[r].indices[i], s.records[r].indices[i];
            && index.key == row.key && index.numberFiles == |row.files| && index.size == SumSizes(row.files)
            && Get(index.availability, FileOnline) == |Places(s, row.files, false)|
            && Get(index.availability, FileOnDemand) == |Places(s, row.files, true)|
            && |index.files| == |row.files| && forall k | 0 <= k < |row.files| :: Entered(s, row.files[k], index.files[k])
  {
    var row := s.layout[r].indices[i];
    CountOntoTally(map[], row.files, s.tags, FileOnline);
    CountOntoTally(map[], row.files, s.tags, FileOnDemand);
    CountedPlaces(s, row.files, false);
    CountedPlaces(s, row.files, true);
    TotalIsSum(row.files);
    hide CountOnto, TotalSize, SumSizes, Places, Tally, Details;
  }

  // ---------- After a recomputation ----------

  /** Saving the availability of an up-to-date record. */
  lemma SavedIsShown(s: Store, r: RecordId)
    requires r in s.layout && r in s.records && Agrees(s, r)
    ensures var s' := SaveAvailability(s, r);
            Shown(s', r) && s' == s.(records := s'.records) && s'.records.Keys == s.records.Keys
            && forall q | q in s.records && q != r :: s'.records[q] == s.records[q]
  {
    hide FreshFiles, FreshIndices, Details, StagePending, Shown;
    var s' := SaveAvailability(s, r);
    assert StagePending(s', r) == StagePending(s, r) by { SameWaiting(s, s', r); }
    CheckedIsShown(s', r);
  }

  lemma SameWaiting(s: Store, s': Store, r: RecordId)
    requires s'.requests == s.requests && s'.transfers == s.transfers
    ensures StagePending(s', r) == StagePending(s, r)
  {
  }

  /** Refreshing one record, whatever its cache held. */
  lemma RefreshedIsShown(s: Store, r: RecordId)
    requires Core(s) && r in s.layout
    ensures Shown(RefreshRecord(s, r), r)
  {
    hide Details, StagePending, Shown, TagTableSound, TransfersSound, OneVersion;
    RefreshSound(s, r);
    var s' := RefreshRecord(s, r);
    assert StagePending(s', r) == StagePending(s, r) by { SameWaiting(s, s', r); }
    CheckedIsShown(s', r);
  }

  /** What a refresh writes, whatever the cache held: the direct files, unless there are none, and the indices, as they are
      in the tag table. */
  lemma RefreshWrites(s: Store, r: RecordId, k: nat)
    requires r in s.layout && r in s.records
    ensures var before, after, l := s.records[r], RefreshRecord(s, r).records[r], s.layout[r];
            && RefreshRecord(s, r) == s.(records := s.records[r := after])
            && (l.direct == [] ==> after.files == before.files)
            && (l.direct != [] ==> |after.files| == |l.direct| && (k < |l.direct| ==> Entered(s, l.direct[k], after.files[k])))
            && |after.indices| == |l.indices|
            && (k < |l.indices| ==> after.indices[k].key == l.indices[k].key && |after.indices[k].files| == |l.indices[k].files|)
  {
    hide Details, StagePending, CountOnto, TotalSize;
  }

  /** What is shown depends on the tags, requests and transfers only. */
  lemma ShownFrame(s: Store, s': Store, r: RecordId)
    requires r in s.layout && r in s.records && Shown(s, r)
    requires s' == s.(records := s'.records) && r in s'.records && s'.records[r] == s.records[r]
    ensures Shown(s', r)
  {
    assert forall row :: Removed(s', row) <==> Removed(s, row);
    hide Rows, Removed;
  }

  /** The queue: the records in it are shown afterwards, and the others are as they were. */
  lemma {:induction false} QueueIsShown(s: Store, queue: seq<RecordId>, r: RecordId)
    requires Core(s) && (forall q | q in queue :: q in s.layout) && r in s.layout
    ensures var s' := RefreshAll(s, queue);
            r in s'.records && if r in queue then Shown(s', r) else s'.records[r] == s.records[r]
    decreases |queue|
  {
    hide Core, Shown, Refreshed;
    KnownRecord(s, r);
    if queue != [] {
      var s1, rest := RefreshRecord(s, queue[0]), queue[1..];
      RefreshSound(s, queue[0]);
      assert queue == [queue[0]] + rest;
      QueueIsShown(s1, rest, r);
      if r == queue[0] && r !in rest {
        RefreshedIsShown(s, r);
        ShownFrame(s1, RefreshAll(s1, rest), r);
      }
    }
  }

  lemma KnownRecord(s: Store, r: RecordId)
    requires Core(s) && r in s.layout
    ensures r in s.records
  {
  }

  // ---------- After the steps that change tags ----------

  /** The record was refreshed, or it is as it was. */
  ghost predicate ShownOrSame(s: Store, s': Store, r: RecordId) {
    && r in s.layout && s'.layout == s.layout && r in s.records && r in s'.records
    && (Shown(s', r) || s'.records[r] == s.records[r])
  }

  lemma ReindexedIsShown(s: Store, cs: CatState, r: RecordId)
    requires Mid(cs) && cs.store.records == s.records && cs.store.layout == s.layout && r in s.layout
    ensures ShownOrSame(s, Reindexed(cs).store, r)
    ensures r in cs.queue ==> Shown(Reindexed(cs).store, r)
  {
    hide Core, CacheSound, Shown;
    KnownRecord(cs.store, r);
    QueueIsShown(cs.store, cs.queue, r);
  }

  lemma CopyQueues(cs: CatState, id: nat)
    requires Mid(cs) && id < |cs.store.transfers| && !cs.store.transfers[id].finished
    ensures cs.store.transfers[id].record in TransferStep(cs, id, Done).queue
  {
    hide Mid;
    FitsTable(cs, id);
  }

  lemma {:induction false} LoopKeepsQueue(cs: CatState, order: seq<nat>, answers: nat -> TransferStatus, r: RecordId)
    requires (forall k | 0 <= k < |order| :: order[k] < |cs.store.transfers|) && r in cs.queue
    ensures r in TransferLoop(cs, order, answers).queue
    decreases |order|
  {
    if order != [] {
      LoopKeepsQueue(TransferStep(cs, order[0], answers(order[0])), order[1..], answers, r);
    }
  }

  lemma StepTail(cs: CatState, order: seq<nat>, status: TransferStatus)
    requires order != [] && Ongoing(cs.store, order)
    ensures var next := TransferStep(cs, order[0], status);
            Ongoing(next.store, order[1..]) && next.store.records == cs.store.records && next.store.layout == cs.store.layout
            && forall k | 0 < k < |order| :: next.store.transfers[order[k]] == cs.store.transfers[order[k]]
  {
  }

  lemma {:induction false} LoopQueues(cs: CatState, order: seq<nat>, answers: nat -> TransferStatus, k: nat)
    requires Mid(cs) && Ongoing(cs.store, order) && k < |order| && answers(order[k]).Done?
    ensures cs.store.transfers[order[k]].record in TransferLoop(cs, order, answers).queue
    decreases |order|
  {
    hide Mid, TransferStep;
    var next, rest := TransferStep(cs, order[0], answers(order[0])), order[1..];
    StepTail(cs, order, answers(order[0]));
    if k == 0 {
      CopyQueues(cs, order[0]);
      LoopKeepsQueue(next, rest, answers, cs.store.transfers[order[0]].record);
    } else {
      TransferStepKeeps(cs, order[0], answers(order[0]));
      LoopQueues(next, rest, answers, k - 1);
    }
  }

  lemma {:induction false} LoopLeavesRecords(cs: CatState, order: seq<nat>, answers: nat -> TransferStatus)
    requires Ongoing(cs.store, order)
    ensures var cs' := TransferLoop(cs, order, answers);
            cs'.store.records == cs.store.records && cs'.store.layout == cs.store.layout
    decreases |order|
  {
    hide TransferStep;
    if order != [] {
      StepTail(cs, order, answers(order[0]));
      LoopLeavesRecords(TransferStep(cs, order[0], answers(order[0])), order[1..], answers);
    }
  }

  /** A poll: the records of the transfers that are done are shown as they are now; any other record too, or it is as it
      was. */
  lemma PolledIsShown(c: Config, s: Store, order: seq<nat>, answers: nat -> TransferStatus, r: RecordId)
    requires Inv(s) && Ongoing(s, order) && r in s.layout
    ensures var s' := Next(c, s, Poll(order, answers));
            && ShownOrSame(s, s', r)
            && ((exists k :: 0 <= k < |order| && answers(order[k]).Done? && s.transfers[order[k]].record == r) ==> Shown(s', r))
  {
    hide Inv, Mid, TransferLoop, Shown, RefreshAll;
    var cs := CatState(s, []);
    InvIsMid(s);
    TransferLoopKeeps(cs, order, answers);
    LoopLeavesRecords(cs, order, answers);
    ReindexedIsShown(s, TransferLoop(cs, order, answers), r);
    if k :| 0 <= k < |order| && answers(order[k]).Done? && s.transfers[order[k]].record == r {
      LoopQueues(cs, order, answers, k);
    }
  }

  lemma {:induction false} ClearQueues(cs: CatState, r: RecordId, files: seq<CachedFile>, force: bool, dry: bool,
                                       removable: string -> bool, cleared: bool)
    requires cleared ==> r in cs.queue
    ensures var (cs', cleared', gaveUp) := ClearFiles(cs, r, files, force, dry, removable, cleared);
            && (cleared' ==> r in cs'.queue)
            && cs'.store.records == cs.store.records && cs'.store.layout == cs.store.layout
    decreases |files|
  {
    hide IsQos;
    if files != [] {
      if !IsQos(files[0], Archive) || !IsQos(files[0], Stage) {
        ClearQueues(cs, r, files[1..], force, dry, removable, cleared);
      } else {
        var cs0 := cs.(store := RemoveHot(cs.store, files[0].row.uri, dry, removable));
        var (ok, cs1) := MarkHotDeleted(cs0, r, files[0].row.id, force);
        if ok {
          ClearQueues(cs1, r, files[1..], force, dry, removable, true);
        }
      }
    }
  }

  /** A removal that cleared something shows its record as it is now; every other record is as it was, or shown too. */
  lemma ClearedIsShown(s: Store, r: RecordId, limit: int, force: bool, dry: bool, removable: string -> bool, file: string,
                       q: RecordId)
    requires Inv(s) && q in s.layout
    ensures var (cs', result) := RecordCleared(CatState(s, []), r, limit, force, dry, removable, file);
            ShownOrSame(s, cs'.store, q) && (result == Cleared && q == r ==> Shown(cs'.store, r))
  {
    assert q in s.records;
    if r in s.records {
      assert Mid(CatState(s, [])) && r in s.layout;
      SelectionLists(s, r, limit, file);
      hide ClearFiles, SelectFiles, Lists, Rows, Mid, Inv, Shown, RefreshAll;
      var files := SelectFiles(s.records[r], limit, file);
      ClearFilesKeeps(CatState(s, []), r, files, force, dry, removable, false);
      ClearQueues(CatState(s, []), r, files, force, dry, removable, false);
      ReindexedIsShown(s, ClearFiles(CatState(s, []), r, files, force, dry, removable, false).0, q);
    }
  }

  lemma {:induction false} MoveLeavesRecords(c: seq<Location>, run: MoveRun, r: RecordId, files: seq<CachedFile>, action: Action,
                                             o: MoveOptions, env: Env, budget: int)
    ensures MoveFiles(c, run, r, files, action, o, env, budget).cs.store.layout == run.cs.store.layout
    ensures MoveFiles(c, run, r, files, action, o, env, budget).cs.store.records == run.cs.store.records
  {
  }

  lemma SameRowSameTags(rows: seq<FileRow>, tags: map<FileId, Tags>, tags': map<FileId, Tags>, k: nat)
    requires FreshFiles(rows, tags) == FreshFiles(rows, tags') && k < |rows|
    ensures TagsOf(tags', rows[k].id) == TagsOf(tags, rows[k].id)
  {
    assert FreshFiles(rows, tags)[k].tags == FreshFiles(rows, tags')[k].tags;
  }

  /** A cached record is up to date for one state of its tags only. */
  lemma AgreesOnce(s: Store, s': Store, r: RecordId, row: FileRow)
    requires r in s.layout && r in s.records && r in s'.layout && r in s'.records && Agrees(s, r) && Agrees(s', r)
    requires s'.layout == s.layout && s'.records[r] == s.records[r] && row in Rows(s.layout[r])
    ensures TagsOf(s'.tags, row.id) == TagsOf(s.tags, row.id)
  {
    var l := s.layout[r];
    if row in l.direct {
      var k :| 0 <= k < |l.direct| && l.direct[k] == row;
      SameRowSameTags(l.direct, s.tags, s'.tags, k);
    } else {
      IndexRowsHas(l.indices, row);
      var i, k :| 0 <= i < |l.indices| && 0 <= k < |l.indices[i].files| && l.indices[i].files[k] == row;
      assert FreshIndices(l.indices, s.tags)[i].files == FreshIndices(l.indices, s'.tags)[i].files;
      SameRowSameTags(l.indices[i].files, s.tags, s'.tags, k);
    }
  }

  /** An operation: a record is as it was, or shown as it is now; and so is one of whose files a copy was registered. */
  lemma MovedIsShown(c: seq<Location>, s: Store, r: RecordId, limit: int, action: Action, o: MoveOptions, env: Env, budget: int,
                     file: string, q: RecordId, row: FileRow)
    requires Inv(s) && !action.ClearHot? && q in s.layout && row in Rows(s.layout[q])
    ensures var s' := RecordMoved(c, CatState(s, []), r, limit, action, o, env, budget, file).0.store;
            && ShownOrSame(s, s', q)
            && (TagsOf(s'.tags, row.id) != TagsOf(s.tags, row.id) ==> Shown(s', q))
  {
    var cs := CatState(s, []);
    assert Mid(cs) && q in s.records;
    RecordMovedKeeps(c, s, r, limit, action, o, env, budget, file);
    var s' := RecordMoved(c, cs, r, limit, action, o, env, budget, file).0.store;
    if r in s.records {
      SelectionLists(s, r, limit, file);
      hide MoveFiles, SelectFiles, Lists, Rows, Mid, Inv, Shown, RefreshAll, TagsOf, Agrees;
      var files := SelectFiles(s.records[r], limit, file);
      MoveFilesKeeps(c, MoveRun(cs, [], false, 0), r, files, action, o, env, budget);
      MoveLeavesRecords(c, MoveRun(cs, [], false, 0), r, files, action, o, env, budget);
      ReindexedIsShown(s, MoveRecordRun(c, cs, r, limit, action, o, env, budget, file).cs, q);
    }
    if s'.records[q] == s.records[q] {
      RecordAgrees(s, q);
      RecordAgrees(s', q);
      AgreesOnce(s, s', q, row);
    }
  }

  /** Completing requests: every record with a started stage request is shown as it is now. */
  lemma CompletedIsShown(s: Store, i: nat)
    requires Inv(s) && i < |s.requests| && s.requests[i].status == Started && s.requests[i].action == Stage
    ensures var s', r := RunningChecked(s), s.requests[i].record;
            r in s'.layout && r in s'.records && Shown(s', r)
  {
    hide Inv, CheckRunningAction, Due, SamePending, Shown;
    var r := s.requests[i].record;
    RequestResolves(s, i);
    RunningActionExact(s, Stage);
    StageActionShows(s, i);
    var s1 := CheckRunningAction(s, Stage);
    RunningActionExact(s1, Archive);
    OtherActionRecords(s1, Archive);
    var s2 := CheckRunningAction(s1, Archive);
    RunningActionExact(s2, ClearHot);
    OtherActionRecords(s2, ClearHot);
    RecordAgrees(s1, r);
    StillShown(s1, s2, r);
    StillShown(s2, CheckRunningAction(s2, ClearHot), r);
  }

  /** Requests that moved on without being submitted anew, and the same records. */
  lemma StillShown(s: Store, s': Store, r: RecordId)
    requires r in s.layout && r in s.records && Shown(s, r) && SamePending(s, s') && s'.records == s.records
    ensures r in s'.layout && r in s'.records && Shown(s', r)
  {
    PendingIsAwaited(s, r);
    PendingIsAwaited(s', r);
    if StagePending(s, r) { SamePendingHalf(s, s', r); }
    if StagePending(s', r) { SamePendingHalf(s', s, r); }
    assert forall row :: Removed(s', row) <==> Removed(s, row);
    hide Rows, Removed, Awaited, StagePending;
  }

  lemma {:induction false} OtherLoopRecords(s: Store, action: Action, ids: seq<nat>)
    requires action != Stage && forall k | 0 <= k < |ids| :: ids[k] < |s.requests|
    ensures RunningLoop(s, action, ids).records == s.records
    decreases |ids|
  {
    hide IndicesArchived, CountFailed, Resolved;
    if ids != [] {
      OtherLoopRecords(RunningStep(s, action, ids[0]), action, ids[1..]);
    }
  }

  lemma OtherActionRecords(s: Store, action: Action)
    requires action != Stage
    ensures CheckRunningAction(s, action).records == s.records
  {
    OtherLoopRecords(s, action, RequestIds(s.requests, Started, action));
  }

  lemma StageActionShows(s: Store, i: nat)
    requires Inv(s) && i < |s.requests| && s.requests[i].status == Started && s.requests[i].action == Stage
    ensures var s', r := CheckRunningAction(s, Stage), s.requests[i].record;
            r in s'.layout && r in s'.records && Shown(s', r)
  {
    hide Inv, RunningLoop, Shown;
    var ids := RequestIds(s.requests, Started, Stage);
    RequestIdsExact(s.requests, Started, Stage);
    var k :| 0 <= k < |ids| && ids[k] == i;
    StageLoopShows(s, ids, k);
  }

  /** A record that is shown stays so, and the record of the k-th request becomes so. */
  lemma {:induction false} StageLoopShows(s: Store, ids: seq<nat>, k: nat)
    requires Inv(s) && ListsStarted(s, Stage, ids) && k < |ids|
    ensures var s', r := RunningLoop(s, Stage, ids), s.requests[ids[k]].record;
            r in s'.layout && r in s'.records && Shown(s', r)
    decreases |ids|
  {
    hide Inv, RunningStep, Shown, Due, SamePending;
    var next, rest := RunningStep(s, Stage, ids[0]), ids[1..];
    FirstAnswered(s, Stage, ids);
    if k > 0 {
      StageLoopShows(next, rest, k - 1);
    } else {
      var r := s.requests[ids[0]].record;
      StageStepShows(s, ids[0]);
      LoopKeepsShown(next, rest, r);
    }
  }

  lemma {:induction false} LoopKeepsShown(s: Store, ids: seq<nat>, r: RecordId)
    requires Inv(s) && ListsStarted(s, Stage, ids) && r in s.layout && r in s.records && Shown(s, r)
    ensures var s' := RunningLoop(s, Stage, ids); r in s'.layout && r in s'.records && Shown(s', r)
    decreases |ids|
  {
    hide Inv, RunningStep, Shown, Due, SamePending;
    if ids != [] {
      FirstAnswered(s, Stage, ids);
      StageStepKeepsShown(s, ids[0], r);
      LoopKeepsShown(RunningStep(s, Stage, ids[0]), ids[1..], r);
    }
  }

  /** One started stage request: its record is online and stays so, or its availability is saved. */
  lemma StageStepRecords(s: Store, id: nat)
    requires id < |s.requests| && s.requests[id].record in s.records
    ensures var s', r := RunningStep(s, Stage, id), s.requests[id].record;
            && s'.layout == s.layout
            && s'.records == if s.records[r].availability == Online then s.records else SaveAvailability(Counted(s, id), r).records
  {
    hide CountFailed, Rechecked, Resolved;
  }

  lemma StageStepShows(s: Store, id: nat)
    requires Inv(s) && id < |s.requests| && s.requests[id].status == Started && s.requests[id].action == Stage
    ensures var s', r := RunningStep(s, Stage, id), s.requests[id].record;
            r in s'.layout && r in s'.records && Shown(s', r)
  {
    hide Inv, RunningStep, Shown, SaveAvailability, CountFailed, StagePending, Agrees, Due;
    var r := s.requests[id].record;
    RequestResolves(s, id);
    RecordAgrees(s, r);
    StageStepRecords(s, id);
    StageStepExact(s, id);
    OnlyThisMoved(s, id);
    if s.records[r].availability == Online {
      OnlineIsShown(s, r);
      StillShown(s, RunningStep(s, Stage, id), r);
    } else {
      var s0 := Counted(s, id);
      assert Agrees(s0, r) by { CountedAgrees(s, id, r); }
      SavedIsShown(s0, r);
      StillShown(SaveAvailability(s0, r), RunningStep(s, Stage, id), r);
    }
  }

  lemma CountedAgrees(s: Store, id: nat, r: RecordId)
    requires id < |s.requests| && r in s.layout && r in s.records && Agrees(s, r)
    ensures Agrees(Counted(s, id), r)
  {
  }

  lemma OnlineIsShown(s: Store, r: RecordId)
    requires Inv(s) && r in s.layout && r in s.records && s.records[r].availability == Online
    ensures Shown(s, r)
  {
    assert CacheSound(s, r);
    PendingIsAwaited(s, r);
    DetailsSay(s, r);
    hide Inv, Agrees, Rows, Removed, Awaited, StagePending;
    assert FromDetails(s.records[r]) by { assert BaseAvailability(s.records[r].details) == Online; }
    TruthfulExact(s, r);
  }

  lemma OnlyThisMoved(s: Store, id: nat)
    requires id < |s.requests| && s.requests[id].status == Started && StepExact(s, id, RunningStep(s, Stage, id))
    ensures SamePending(s, RunningStep(s, Stage, id))
    ensures s.requests[id].record in s.records ==>
              SamePending(SaveAvailability(Counted(s, id), s.requests[id].record), RunningStep(s, Stage, id))
  {
    hide RunningStep, Due, CountFailed;
  }

  lemma StageStepKeepsShown(s: Store, id: nat, r: RecordId)
    requires Inv(s) && id < |s.requests| && s.requests[id].status == Started && s.requests[id].action == Stage
    requires r in s.layout && r in s.records && Shown(s, r)
    ensures var s' := RunningStep(s, Stage, id); r in s'.layout && r in s'.records && Shown(s', r)
  {
    hide Inv, RunningStep, Shown, CountFailed, StagePending, Agrees, Due, Rechecked;
    RequestResolves(s, id);
    StageStepRecords(s, id);
    StageStepExact(s, id);
    OnlyThisMoved(s, id);
    if r == s.requests[id].record {
      StageStepShows(s, id);
    } else {
      ShownElsewhere(s, RunningStep(s, Stage, id), r);
    }
  }

  lemma ShownElsewhere(s: Store, s': Store, r: RecordId)
    requires r in s.layout && r in s.records && Shown(s, r) && SamePending(s, s') && r in s'.records && s'.records[r] == s.records[r]
    ensures Shown(s', r)
  {
    PendingIsAwaited(s, r);
    PendingIsAwaited(s', r);
    if StagePending(s, r) { SamePendingHalf(s, s', r); }
    if StagePending(s', r) { SamePendingHalf(s', s, r); }
    assert forall row :: Removed(s', row) <==> Removed(s, row);
    hide Rows, Removed, Awaited, StagePending;
  }

  // ---------- Over every run ----------

  lemma {:induction false} RefreshTells(s: Store, queue: seq<RecordId>, r: RecordId)
    requires r in s.records && FromDetails(s.records[r])
    ensures r in RefreshAll(s, queue).records && FromDetails(RefreshAll(s, queue).records[r])
    decreases |queue|
  {
    hide Details, BaseAvailability, StagePending, FreshFiles, FreshIndices;
    if queue != [] {
      RefreshTells(RefreshRecord(s, queue[0]), queue[1..], r);
    }
  }

  lemma MoveTells(c: seq<Location>, cs: CatState, q: RecordId, limit: int, action: Action, o: MoveOptions, env: Env,
                  budget: int, file: string, r: RecordId)
    requires r in cs.store.records && FromDetails(cs.store.records[r])
    ensures var s' := RecordMoved(c, cs, q, limit, action, o, env, budget, file).0.store;
            r in s'.records && FromDetails(s'.records[r])
  {
    hide MoveFiles, SelectFiles, FromDetails, RefreshAll;
    if q in cs.store.records {
      var run := MoveRecordRun(c, cs, q, limit, action, o, env, budget, file);
      RefreshTells(run.cs.store, run.cs.queue, r);
    }
  }

  lemma {:induction false} SubmitTells(c: Config, cs: CatState, action: Action, ids: seq<nat>, budget: int, submitted: nat,
                                       envs: nat -> Env, r: RecordId)
    requires (forall k | 0 <= k < |ids| :: ids[k] < |cs.store.requests|) && r in cs.store.records
    requires FromDetails(cs.store.records[r])
    ensures var s' := SubmitLoop(c, cs, action, ids, budget, submitted, envs).0.store;
            r in s'.records && FromDetails(s'.records[r])
    decreases |ids|
  {
    hide RecordMoved, FromDetails, Charged;
    if ids != [] {
      var q := cs.store.requests[ids[0]];
      MoveTells(c.locations, cs, q.record, 0, action, SERVICE_OPTIONS, envs(ids[0]), budget - submitted, q.file, r);
      var (cs', submitted') := SubmitStep(c, cs, action, ids[0], budget, submitted, envs(ids[0]));
      if budget - submitted' > 0 {
        SubmitTells(c, cs', action, ids[1..], budget, submitted', envs, r);
      }
    }
  }

  lemma PassTells(c: Config, s: Store, envs: (Action, nat) -> Env, r: RecordId)
    requires r in s.records && FromDetails(s.records[r])
    ensures var s' := SubmittedChecked(c, s, envs); r in s'.records && FromDetails(s'.records[r])
  {
    hide SubmitLoop, FromDetails, RequestIds;
    var stage, archive := (id: nat) => envs(Stage, id), (id: nat) => envs(Archive, id);
    var cs := CatState(s, []);
    var cs1 := CheckSubmittedAction(c, cs, Stage, stage);
    SubmitTells(c, cs, Stage, RequestIds(s.requests, Submitted, Stage),
                Threshold(c, Stage) - CountActive(s.transfers, Stage), 0, stage, r);
    SubmitTells(c, cs1, Archive, RequestIds(cs1.store.requests, Submitted, Archive),
                Threshold(c, Archive) - CountActive(cs1.store.transfers, Archive), 0, archive, r);
  }

  lemma {:induction false} RunningTells(s: Store, action: Action, ids: seq<nat>, r: RecordId)
    requires (forall k | 0 <= k < |ids| :: ids[k] < |s.requests|) && r in s.records && FromDetails(s.records[r])
    ensures var s' := RunningLoop(s, action, ids); r in s'.records && FromDetails(s'.records[r])
    decreases |ids|
  {
    hide Details, BaseAvailability, StagePending, CountFailed, IndicesArchived;
    if ids != [] {
      RunningTells(RunningStep(s, action, ids[0]), action, ids[1..], r);
    }
  }

  lemma CompletionTells(s: Store, r: RecordId)
    requires r in s.records && FromDetails(s.records[r])
    ensures var s' := RunningChecked(s); r in s'.records && FromDetails(s'.records[r])
  {
    hide RunningLoop, FromDetails, RequestIds;
    var s1 := CheckRunningAction(s, Stage);
    var s2 := CheckRunningAction(s1, Archive);
    RunningTells(s, Stage, RequestIds(s.requests, Started, Stage), r);
    RunningTells(s1, Archive, RequestIds(s1.requests, Started, Archive), r);
    RunningTells(s2, ClearHot, RequestIds(s2.requests, Started, ClearHot), r);
  }

  lemma NextTells(c: Config, s: Store, step: Step, r: RecordId)
    requires Enabled(s, step) && r in s.records && FromDetails(s.records[r])
    ensures r in Next(c, s, step).records && FromDetails(Next(c, s, step).records[r])
  {
    hide BaseAvailability, RunningChecked, RecordMoved, SubmittedChecked, RefreshAll, TransferLoop, ClearFiles, SelectFiles;
    match step
    case AskStage(_, _, _) =>
    case AskArchive(_, _) =>
    case Submit(envs) => PassTells(c, s, envs, r);
    case Complete => CompletionTells(s, r);
    case Poll(order, answers) =>
      var cs := TransferLoop(CatState(s, []), order, answers);
      LoopLeavesRecords(CatState(s, []), order, answers);
      RefreshTells(cs.store, cs.queue, r);
    case Move(action, q, limit, o, env, budget, file) =>
      MoveTells(c.locations, CatState(s, []), q, limit, action, o, env, budget, file, r);
    case Clear(q, limit, force, dry, removable, file) =>
      if q in s.records {
        var files := SelectFiles(s.records[q], limit, file);
        ClearQueues(CatState(s, []), q, files, force, dry, removable, false);
        var cs := ClearFiles(CatState(s, []), q, files, force, dry, removable, false).0;
        RefreshTells(cs.store, cs.queue, r);
      }
    case Appear(_) =>
  }

  lemma {:induction false} RunTells(c: Config, s: Store, steps: seq<Step>, r: RecordId)
    requires Possible(c, s, steps) && r in s.records && FromDetails(s.records[r])
    ensures r in End(c, s, steps).records && FromDetails(End(c, s, steps).records[r])
    decreases |steps|
  {
    hide Next, Enabled, FromDetails;
    if steps != [] {
      NextTells(c, s, steps[0], r);
      RunTells(c, Next(c, s, steps[0]), steps[1..], r);
    }
  }

  /** Over every run, a record is never shown as online, partial or on demand when its files are not. */
  lemma ShownIsTrue(c: Config, s0: Store, steps: seq<Step>, r: RecordId)
    requires Imported(s0) && Possible(c, s0, steps) && r in s0.layout
    requires s0.records[r].availability == Online || s0.records[r].availability == Requested
    ensures var s := End(c, s0, steps); r in s.layout && r in s.records && Truthful(s, r)
  {
    ImportedInv(s0);
    RecordAgrees(s0, r);
    DetailsSay(s0, r);
    assert forall row | row in Rows(s0.layout[r]) :: Holds(s0.layout, r, row);
    assert FromDetails(s0.records[r]);
    hide Inv, End, FromDetails, Truthful, Imported, Rows;
    RunKeeps(c, s0, steps);
    RunTells(c, s0, steps, r);
    RecordAgrees(End(c, s0, steps), r);
    TruthfulExact(End(c, s0, steps), r);
  }
}
