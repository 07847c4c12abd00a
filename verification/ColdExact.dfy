/** What a poll of the transfers and a removal of hot copies do, exactly, under the invariant. */
module ColdExact {
  import opened Options
  import opened ColdTypes
  import opened ColdModel
  import opened Catalog
  import opened Manager
  import opened Service
  import opened ColdInvariant
  import opened ColdPreservation
  import opened ColdRuns

  // ---------- Polling ----------

  /** The tags of a file once a transfer of it is done. */
  function Delivered(tags: Tags, t: Transfer): Tags {
    if t.action.Archive? then tags.(cold := Some(t.newFilename)) else tags.(hotDeleted := false)
  }

  /** The listed transfers are of different files, all in the tag table. */
  ghost predicate OneEach(s: Store, order: seq<nat>) {
    && (forall k | 0 <= k < |order| ::
          order[k] < |s.transfers| && s.transfers[order[k]].file in s.tags && !s.transfers[order[k]].action.ClearHot?)
    && (forall j, k | 0 <= j < k < |order| :: order[j] != order[k])
    && (forall j, k | 0 <= j < k < |order| :: s.transfers[order[j]].file != s.transfers[order[k]].file)
  }

  lemma OngoingOneEach(s: Store, order: seq<nat>)
    requires Inv(s) && Ongoing(s, order)
    ensures OneEach(s, order)
  {
    forall k | 0 <= k < |order|
      ensures s.transfers[order[k]].file in s.tags && !s.transfers[order[k]].action.ClearHot? {
      UnfinishedFits(s, order[k]);
    }
    forall j, k | 0 <= j < k < |order| ensures s.transfers[order[j]].file != s.transfers[order[k]].file {
      DifferentFiles(s, order[j], order[k]);
    }
  }

  lemma UnfinishedFits(s: Store, i: nat)
    requires Inv(s) && i < |s.transfers| && !s.transfers[i].finished
    ensures s.transfers[i].file in s.tags && !s.transfers[i].action.ClearHot?
  {
    hide OneVersion, Resolved, CacheSound;
    var row :| TransferFits(s.layout, s.tags, s.transfers[i], row);
    assert Holds(s.layout, s.transfers[i].record, row);
  }

  lemma DifferentFiles(s: Store, i: nat, j: nat)
    requires Inv(s) && i < |s.transfers| && j < |s.transfers| && i != j
    requires !s.transfers[i].finished && !s.transfers[j].finished
    ensures s.transfers[i].file != s.transfers[j].file
  {
  }

  /** One transfer: its row takes the answer, and a copy that is done reaches the tags of its file only. */
  lemma StepExactly(cs: CatState, id: nat, status: TransferStatus)
    requires id < |cs.store.transfers|
    requires cs.store.transfers[id].file in cs.store.tags && !cs.store.transfers[id].action.ClearHot?
    ensures var s, s', t := cs.store, TransferStep(cs, id, status).store, cs.store.transfers[id];
            && s'.transfers == s.transfers[id := t.(status := status, finished := t.finished || Finishes(status))]
            && s'.tags == (if status.Done? then s.tags[t.file := Delivered(s.tags[t.file], t)] else s.tags)
            && s' == s.(transfers := s'.transfers, tags := s'.tags)
  {
  }

  /** The step over the first transfer of the list, and what it leaves for the rest. */
  lemma FirstStep(cs: CatState, order: seq<nat>, answers: nat -> TransferStatus)
    requires OneEach(cs.store, order) && order != []
    ensures order[0] < |cs.store.transfers| && order[0] !in order[1..] && order == [order[0]] + order[1..]
    ensures var s, s', t := cs.store, TransferStep(cs, order[0], answers(order[0])).store, cs.store.transfers[order[0]];
            && t.file in s.tags && !t.action.ClearHot? && OneEach(s', order[1..])
            && s'.transfers == s.transfers[order[0] := t.(status := answers(order[0]),
                                                          finished := t.finished || Finishes(answers(order[0])))]
            && s'.tags == (if answers(order[0]).Done? then s.tags[t.file := Delivered(s.tags[t.file], t)] else s.tags)
            && s' == s.(transfers := s'.transfers, tags := s'.tags)
    ensures forall k | 0 < k < |order| ::
              && order[k] != order[0] && order[k] < |cs.store.transfers|
              && cs.store.transfers[order[k]].file != cs.store.transfers[order[0]].file
  {
    hide TransferStep, Delivered, OneEach, Finishes;
    HeadOfOrder(cs.store, order);
    StepExactly(cs, order[0], answers(order[0]));
    RestOneEach(cs.store, TransferStep(cs, order[0], answers(order[0])).store, order);
    RestUntouched(cs.store, order);
    RestElsewhere(cs.store, order);
  }

  /** The loop over the ongoing transfers, seen at one transfer. */
  lemma {:induction false} LoopTransfers(cs: CatState, order: seq<nat>, answers: nat -> TransferStatus, i: nat)
    requires OneEach(cs.store, order) && i < |cs.store.transfers|
    requires forall k | 0 <= k < |order| :: order[k] < |cs.store.transfers|
    ensures var s, s' := cs.store, TransferLoop(cs, order, answers).store;
            && |s'.transfers| == |s.transfers| && s' == s.(transfers := s'.transfers, tags := s'.tags)
            && s'.transfers[i] == if i in order then s.transfers[i].(status := answers(i),
                                                       finished := s.transfers[i].finished || Finishes(answers(i)))
                                  else s.transfers[i]
    decreases |order|
  {
    hide TransferStep, Delivered, OneEach, Finishes;
    if order != [] {
      FirstStep(cs, order, answers);
      assert forall k | 0 <= k < |order[1..]| :: order[1..][k] == order[k + 1];
      LoopTransfers(TransferStep(cs, order[0], answers(order[0])), order[1..], answers, i);
    }
  }

  /** The loop, seen at one file: a done transfer of the file reaches its tags. */
  lemma {:induction false} LoopDelivers(cs: CatState, order: seq<nat>, answers: nat -> TransferStatus, k: nat)
    requires OneEach(cs.store, order) && k < |order| && answers(order[k]).Done?
    requires forall k | 0 <= k < |order| :: order[k] < |cs.store.transfers|
    ensures var s, tags := cs.store, TransferLoop(cs, order, answers).store.tags;
            var t := s.transfers[order[k]];
            t.file in s.tags && t.file in tags && tags[t.file] == Delivered(s.tags[t.file], t)
    decreases |order|
  {
    hide TransferStep, Delivered, OneEach, Finishes;
    FirstStep(cs, order, answers);
    var rest, next := order[1..], TransferStep(cs, order[0], answers(order[0]));
    assert forall k | 0 <= k < |rest| :: rest[k] == order[k + 1];
    if k == 0 {
      var file := cs.store.transfers[order[0]].file;
      forall j | 0 <= j < |rest| && answers(rest[j]).Done? ensures next.store.transfers[rest[j]].file != file {
        assert rest[j] == order[j + 1];
      }
      LoopSpares(next, rest, answers, file);
    } else {
      LoopDelivers(next, rest, answers, k - 1);
    }
  }

  /** The loop, seen at a file of which no transfer is done. */
  lemma {:induction false} LoopSpares(cs: CatState, order: seq<nat>, answers: nat -> TransferStatus, file: FileId)
    requires OneEach(cs.store, order)
    requires forall k | 0 <= k < |order| :: order[k] < |cs.store.transfers|
    requires forall k | 0 <= k < |order| && answers(order[k]).Done? :: cs.store.transfers[order[k]].file != file
    ensures var s, tags := cs.store, TransferLoop(cs, order, answers).store.tags;
            (file in tags <==> file in s.tags) && TagsOf(tags, file) == TagsOf(s.tags, file)
    decreases |order|
  {
    hide TransferStep, Delivered, OneEach, Finishes;
    if order != [] {
      FirstStep(cs, order, answers);
      var rest, next := order[1..], TransferStep(cs, order[0], answers(order[0]));
      forall j | 0 <= j < |rest|
        ensures rest[j] < |next.store.transfers|
        ensures answers(rest[j]).Done? ==> next.store.transfers[rest[j]].file != file {
        assert rest[j] == order[j + 1];
      }
      LoopSpares(next, rest, answers, file);
    }
  }

  lemma HeadOfOrder(s: Store, order: seq<nat>)
    requires OneEach(s, order) && order != []
    ensures order[0] < |s.transfers| && order[0] !in order[1..]
    ensures s.transfers[order[0]].file in s.tags && !s.transfers[order[0]].action.ClearHot?
  {
  }

  lemma RestUntouched(s: Store, order: seq<nat>)
    requires OneEach(s, order) && order != []
    ensures forall k | 0 < k < |order| :: order[k] != order[0] && order[k] < |s.transfers|
  {
  }

  lemma RestElsewhere(s: Store, order: seq<nat>)
    requires OneEach(s, order) && order != []
    ensures forall k | 0 < k < |order| :: order[k] < |s.transfers| && s.transfers[order[k]].file != s.transfers[order[0]].file
  {
  }

  lemma RestOneEach(s: Store, s': Store, order: seq<nat>)
    requires OneEach(s, order) && order != [] && |s'.transfers| == |s.transfers|
    requires forall i | 0 <= i < |s.transfers| && i != order[0] :: s'.transfers[i] == s.transfers[i]
    requires forall id | id in s.tags :: id in s'.tags
    ensures OneEach(s', order[1..])
  {
    var rest := order[1..];
    assert forall k | 0 <= k < |rest| :: rest[k] == order[k + 1] && rest[k] != order[0];
  }

  /** A poll, exactly: each ongoing transfer takes the status reported and finishes on DONE, FAILED or no status; a file
      whose transfer is done has the copy in its tags, every other file keeps its tags, and no request changes. */
  lemma PollExact(s: Store, order: seq<nat>, answers: nat -> TransferStatus, i: nat, file: FileId)
    requires Inv(s) && Ongoing(s, order) && i < |s.transfers|
    ensures var s' := TransfersProcessed(s, order, answers);
            && |s'.transfers| == |s.transfers| && s'.requests == s.requests && s'.disk == s.disk
            && s'.transfers[i] == (if i in order then s.transfers[i].(status := answers(i), finished := answers(i).Done? || answers(i).Failed? || answers(i).NoStatus?)
                                   else s.transfers[i])
            && (forall k | 0 <= k < |order| && answers(order[k]).Done? && s.transfers[order[k]].file == file ::
                  TagsOf(s'.tags, file) == Delivered(TagsOf(s.tags, file), s.transfers[order[k]]))
            && ((forall k | 0 <= k < |order| && answers(order[k]).Done? :: s.transfers[order[k]].file != file) ==>
                  TagsOf(s'.tags, file) == TagsOf(s.tags, file))
  {
    hide Inv, TransferLoop, OneEach, Delivered, RefreshAll;
    OngoingOneEach(s, order);
    LoopTransfers(CatState(s, []), order, answers, i);
    forall k | 0 <= k < |order| && answers(order[k]).Done? && s.transfers[order[k]].file == file
      ensures TagsOf(TransferLoop(CatState(s, []), order, answers).store.tags, file)
           == Delivered(TagsOf(s.tags, file), s.transfers[order[k]]) {
      LoopDelivers(CatState(s, []), order, answers, k);
    }
    if forall k | 0 <= k < |order| && answers(order[k]).Done? :: s.transfers[order[k]].file != file {
      LoopSpares(CatState(s, []), order, answers, file);
    }
  }

  // ---------- The calls of the catalog, on any file ----------

  /** Only that file was retagged, and only that record may have been put into the queue. */
  ghost predicate OneRetagged(cs: CatState, cs': CatState, r: RecordId, id: FileId, t: Tags, queued: bool) {
    && id in cs.store.tags
    && cs'.store.tags.Keys == cs.store.tags.Keys && cs'.store.tags[id] == t
    && (forall other | other in cs.store.tags && other != id :: cs'.store.tags[other] == cs.store.tags[other])
    && cs'.store == cs.store.(tags := cs'.store.tags)
    && (forall q :: q in cs'.queue <==> q in cs.queue || (queued && q == r))
    && cs.queue <= cs'.queue && |cs'.queue| <= |cs.queue| + 1
  }

  /** A new copy: archiving gives the file its cold URL, staging takes away the mark of removal; the record is queued once.
      An unknown file, or another action, changes nothing. */
  lemma AddCopyExact(cs: CatState, r: RecordId, id: FileId, action: Action, url: string)
    ensures var cs' := CopyAdded(cs, r, id, action, url);
            if id in cs.store.tags && action == Archive
            then OneRetagged(cs, cs', r, id, Tags(Some(url), cs.store.tags[id].hotDeleted), true)
            else if id in cs.store.tags && action == Stage
            then OneRetagged(cs, cs', r, id, Tags(cs.store.tags[id].cold, false), true)
            else cs' == cs
  {
  }

  /** Marking a file as removed: an unknown file is refused, and so is one that is marked already, unless forced. */
  lemma MarkExact(cs: CatState, r: RecordId, id: FileId, force: bool)
    ensures var (ok, cs') := MarkHotDeleted(cs, r, id, force);
            && (ok <==> id in cs.store.tags && (force || !cs.store.tags[id].hotDeleted))
            && if ok then OneRetagged(cs, cs', r, id, Tags(cs.store.tags[id].cold, true), true) else cs' == cs
  {
    if id in cs.store.tags {
      assert cs.store.tags[id := cs.store.tags[id]] == cs.store.tags;
    }
  }

  // ---------- Removing hot copies ----------

  /** The file is in both places, as far as the record knows. */
  predicate Clearable(f: CachedFile) {
    IsQos(f, Archive) && IsQos(f, Stage)
  }

  /** The hot URLs that a removal deletes. */
  function DeletedUrls(files: seq<CachedFile>, dry: bool, removable: string -> bool): set<string> {
    set k | 0 <= k < |files| && Clearable(files[k]) && !dry && removable(files[k].row.uri) :: files[k].row.uri
  }

  lemma DeletedHead(files: seq<CachedFile>, dry: bool, removable: string -> bool)
    requires files != []
    ensures DeletedUrls(files, dry, removable)
         == (if Clearable(files[0]) && !dry && removable(files[0].row.uri) then {files[0].row.uri} else {})
            + DeletedUrls(files[1..], dry, removable)
  {
    hide Clearable;
    assert forall k | 0 < k < |files| :: files[k] == files[1..][k - 1];
    forall url | url in DeletedUrls(files[1..], dry, removable) ensures url in DeletedUrls(files, dry, removable) {
      var k :| 0 <= k < |files[1..]| && Clearable(files[1..][k]) && !dry && removable(files[1..][k].row.uri)
               && files[1..][k].row.uri == url;
      assert files[k + 1] == files[1..][k];
    }
  }

  ghost predicate AnyClearable(files: seq<CachedFile>) {
    exists k :: 0 <= k < |files| && Clearable(files[k])
  }

  ghost predicate ClearsFile(files: seq<CachedFile>, id: FileId) {
    exists k :: 0 <= k < |files| && files[k].row.id == id && Clearable(files[k])
  }

  lemma ClearableHead(files: seq<CachedFile>, id: FileId)
    requires files != []
    ensures AnyClearable(files) <==> Clearable(files[0]) || AnyClearable(files[1..])
    ensures ClearsFile(files, id) <==> (files[0].row.id == id && Clearable(files[0])) || ClearsFile(files[1..], id)
  {
    hide Clearable;
    assert files == [files[0]] + files[1..];
    if AnyClearable(files[1..]) {
      var k :| 0 <= k < |files[1..]| && Clearable(files[1..][k]);
      assert Clearable(files[k + 1]);
    }
    if ClearsFile(files[1..], id) {
      var k :| 0 <= k < |files[1..]| && files[1..][k].row.id == id && Clearable(files[1..][k]);
      assert files[k + 1].row.id == id && Clearable(files[k + 1]);
    }
  }

  /** The loop, seen at one file. */
  ghost predicate ClearedExactly(s: Store, files: seq<CachedFile>, dry: bool, removable: string -> bool, id: FileId, s': Store) {
    && s' == s.(tags := s'.tags, disk := s.disk - DeletedUrls(files, dry, removable))
    && TagsOf(s'.tags, id) == if ClearsFile(files, id) then TagsOf(s.tags, id).(hotDeleted := true) else TagsOf(s.tags, id)
  }

  lemma ClearedNothing(s: Store, dry: bool, removable: string -> bool, id: FileId)
    ensures ClearedExactly(s, [], dry, removable, id, s) && !AnyClearable([])
  {
    assert DeletedUrls([], dry, removable) == {} by { NothingDeleted(dry, removable); }
    assert s.disk - {} == s.disk;
  }

  /** A file that is not in both places is passed over. */
  lemma ClearedSkip(s: Store, files: seq<CachedFile>, dry: bool, removable: string -> bool, id: FileId, s': Store)
    requires files != [] && !Clearable(files[0]) && ClearedExactly(s, files[1..], dry, removable, id, s')
    ensures ClearedExactly(s, files, dry, removable, id, s')
  {
    hide Clearable, DeletedUrls, ClearsFile;
    ClearableHead(files, id);
    DeletedHead(files, dry, removable);
    assert {} + DeletedUrls(files[1..], dry, removable) == DeletedUrls(files[1..], dry, removable);
  }

  lemma ClearedOne(s: Store, s1: Store, files: seq<CachedFile>, dry: bool, removable: string -> bool, id: FileId, s': Store)
    requires files != [] && Clearable(files[0]) && files[0].tags == TagsOf(s.tags, files[0].row.id)
    requires s1 == s.(tags := s.tags[files[0].row.id := files[0].tags.(hotDeleted := true)], disk := s1.disk)
    requires s1.disk == s.disk - if !dry && removable(files[0].row.uri) then {files[0].row.uri} else {}
    requires ClearedExactly(s1, files[1..], dry, removable, id, s')
    ensures ClearedExactly(s, files, dry, removable, id, s')
  {
    hide Clearable, DeletedUrls, ClearsFile;
    ClearableHead(files, id);
    DeletedHead(files, dry, removable);
  }

  lemma {:induction false} ClearFilesExactly(cs: CatState, r: RecordId, files: seq<CachedFile>, force: bool,
                                             dry: bool, removable: string -> bool, cleared: bool, id: FileId)
    requires Mid(cs) && r in cs.store.layout && Lists(files, Rows(cs.store.layout[r]), cs.store.tags)
    ensures var (cs', cleared', _) := ClearFiles(cs, r, files, force, dry, removable, cleared);
            ClearedExactly(cs.store, files, dry, removable, id, cs'.store) && (cleared' <==> cleared || AnyClearable(files))
    decreases |files|
  {
    hide Mid, MarkHotDeleted, FreshFile, Rows, IsQos, Lists, ClearedExactly, AnyClearable, TagsOf;
    if files == [] {
      ClearedNothing(cs.store, dry, removable, id);
    } else {
      var f, rest := files[0], files[1..];
      ListsHead(cs.store, r, files);
      ClearableHead(files, id);
      if !Clearable(f) {
        ListsTail(files, Rows(cs.store.layout[r]), cs.store.tags, cs.store.tags);
        ClearFilesExactly(cs, r, rest, force, dry, removable, cleared, id);
        ClearedSkip(cs.store, files, dry, removable, id, ClearFiles(cs, r, rest, force, dry, removable, cleared).0.store);
      } else {
        ClearFileKeeps(cs, r, f, force, dry, removable);
        var cs1 := MarkHotDeleted(cs.(store := RemoveHot(cs.store, f.row.uri, dry, removable)), r, f.row.id, force).1;
        MarkedStore(cs, r, f, force, dry, removable);
        RestListed(cs.store, r, files, cs1.store);
        ClearFilesExactly(cs1, r, rest, force, dry, removable, true, id);
        ClearedOne(cs.store, cs1.store, files, dry, removable, id,
                   ClearFiles(cs1, r, rest, force, dry, removable, true).0.store);
      }
    }
  }

  lemma RestListed(s: Store, r: RecordId, files: seq<CachedFile>, s1: Store)
    requires r in s.layout && files != [] && Lists(files, Rows(s.layout[r]), s.tags)
    requires s1.tags == s.tags[files[0].row.id := files[0].tags.(hotDeleted := true)]
    ensures Lists(files[1..], Rows(s.layout[r]), s1.tags)
  {
    hide Rows, Lists;
    ListsTail(files, Rows(s.layout[r]), s.tags, s1.tags);
  }

  lemma NothingDeleted(dry: bool, removable: string -> bool)
    ensures DeletedUrls([], dry, removable) == {}
  {
  }

  lemma ListsHead(s: Store, r: RecordId, files: seq<CachedFile>)
    requires r in s.layout && files != [] && Lists(files, Rows(s.layout[r]), s.tags)
    ensures Holds(s.layout, r, files[0].row) && files[0] == FreshFile(files[0].row, s.tags)
    ensures files[0].tags == TagsOf(s.tags, files[0].row.id)
  {
    hide Rows;
  }

  lemma MarkedStore(cs: CatState, r: RecordId, f: CachedFile, force: bool, dry: bool, removable: string -> bool)
    ensures var cs1 := MarkHotDeleted(cs.(store := RemoveHot(cs.store, f.row.uri, dry, removable)), r, f.row.id, force).1;
            cs1.store.disk == cs.store.disk - (if !dry && removable(f.row.uri) then {f.row.uri} else {})
  {
  }

  /** A removal, exactly: it clears something if and only if some selected file is in both places; then exactly the
      selected files in both places become marked, and unless it is a dry run their hot URLs that can be removed go. */
  lemma ClearExact(s: Store, r: RecordId, limit: int, force: bool, dry: bool, removable: string -> bool,
                   name: string, id: FileId)
    requires Inv(s) && r in s.records
    ensures var (cs', result) := RecordCleared(CatState(s, []), r, limit, force, dry, removable, name);
            var s', files := cs'.store, SelectFiles(s.records[r], limit, name);
            && s'.transfers == s.transfers && s'.requests == s.requests
            && s'.disk == s.disk - DeletedUrls(files, dry, removable)
            && result == (if AnyClearable(files) then Cleared else NotCleared)
            && TagsOf(s'.tags, id)
               == if ClearsFile(files, id) then TagsOf(s.tags, id).(hotDeleted := true) else TagsOf(s.tags, id)
  {
    assert r in s.layout && Mid(CatState(s, []));
    hide ClearFiles, SelectFiles, DeletedUrls, Lists, AnyClearable, ClearsFile, RefreshAll, Rows, Mid, Inv, TagsOf;
    var files := SelectFiles(s.records[r], limit, name);
    SelectionLists(s, r, limit, name);
    ClearFilesExactly(CatState(s, []), r, files, force, dry, removable, false, id);
  }

  /** A mark that is refused ends the removal: nothing after it is looked at, the result is that nothing was cleared, and the
      queue is not drained. (Under the invariant no mark is refused.) */
  lemma RefusedMarkEnds(cs: CatState, r: RecordId, files: seq<CachedFile>, force: bool, dry: bool, removable: string -> bool,
                        cleared: bool)
    requires files != [] && files[0].tags.cold.Some? && !files[0].tags.hotDeleted
    requires files[0].row.id !in cs.store.tags || (cs.store.tags[files[0].row.id].hotDeleted && !force)
    ensures ClearFiles(cs, r, files, force, dry, removable, cleared)
         == (CatState(cs.store.(disk := if !dry && removable(files[0].row.uri) then cs.store.disk - {files[0].row.uri}
                                        else cs.store.disk), cs.queue), false, true)
  {
    assert cs.store.(disk := cs.store.disk) == cs.store;
  }

  // ---------- Counting failures ----------

  /** The transfers of a record that failed, by their positions. */
  ghost function FailedOf(transfers: seq<Transfer>, r: RecordId): set<nat> {
    set i: nat | i < |transfers| && transfers[i].record == r && transfers[i].status == Failed
  }

  lemma {:induction false} CountFailedExact(transfers: seq<Transfer>, r: RecordId)
    ensures CountFailed(transfers, r) == |FailedOf(transfers, r)|
  {
    if transfers != [] {
      var n := |transfers| - 1;
      CountFailedExact(transfers[..n], r);
      if transfers[n].record == r && transfers[n].status == Failed {
        assert FailedOf(transfers, r) == FailedOf(transfers[..n], r) + {n};
      } else {
        assert FailedOf(transfers, r) == FailedOf(transfers[..n], r);
      }
    }
  }

  /** A request with its failed transfers counted; only its status may differ besides. */
  ghost predicate Recounted(s: Store, q: Request, q': Request) {
    q' == q.(numFailed := |FailedOf(s.transfers, q.record)|, status := q'.status)
  }

  lemma StepRecounts(s: Store, action: Action, id: nat)
    requires id < |s.requests| && Resolved(s)
    ensures var s' := RunningStep(s, action, id);
            && Recounted(s, s.requests[id], s'.requests[id]) && s'.requests == s.requests[id := s'.requests[id]]
            && s'.transfers == s.transfers
  {
    hide SaveAvailability, IndicesArchived, CountFailed, FailedOf;
    CountFailedExact(s.transfers, s.requests[id].record);
  }

  lemma {:induction false} LoopRecounts(s: Store, action: Action, ids: seq<nat>, i: nat)
    requires Resolved(s) && i < |s.requests| && forall k | 0 <= k < |ids| :: ids[k] < |s.requests|
    ensures var s' := RunningLoop(s, action, ids);
            && |s'.requests| == |s.requests| && s'.transfers == s.transfers
            && if i in ids then Recounted(s, s.requests[i], s'.requests[i]) else s'.requests[i] == s.requests[i]
    decreases |ids|
  {
    hide RunningStep, CountFailed, FailedOf, Resolved;
    if ids != [] {
      StepRecounts(s, action, ids[0]);
      assert ids == [ids[0]] + ids[1..];
      LoopRecounts(RunningStep(s, action, ids[0]), action, ids[1..], i);
    }
  }

  lemma ActionRecounts(s: Store, action: Action, i: nat)
    requires Resolved(s) && i < |s.requests|
    ensures var s' := CheckRunningAction(s, action);
            && |s'.requests| == |s.requests| && s'.transfers == s.transfers && Resolved(s')
            && if s.requests[i].status == Started && s.requests[i].action == action
               then Recounted(s, s.requests[i], s'.requests[i]) else s'.requests[i] == s.requests[i]
  {
    hide RunningLoop, RequestIds, CountFailed, FailedOf, Resolved, RunningStep;
    RequestListed(s.requests, Started, action, i);
    LoopRecounts(s, action, RequestIds(s.requests, Started, action), i);
    LoopResolved(s, action, RequestIds(s.requests, Started, action));
  }

  lemma {:induction false} LoopResolved(s: Store, action: Action, ids: seq<nat>)
    requires Resolved(s) && forall k | 0 <= k < |ids| :: ids[k] < |s.requests|
    ensures Resolved(RunningLoop(s, action, ids))
    decreases |ids|
  {
    hide RunningStep, Resolved;
    if ids != [] {
      LoopResolved(RunningStep(s, action, ids[0]), action, ids[1..]);
    }
  }

  /** check_running counts the failed transfers of every started request, whether or not it completes it, and leaves
      its other counters and every other request alone. */
  lemma FailuresCounted(s: Store, i: nat)
    requires Resolved(s) && i < |s.requests|
    ensures var s' := RunningChecked(s);
            if s.requests[i].status == Started then Recounted(s, s.requests[i], s'.requests[i])
            else s'.requests[i] == s.requests[i]
  {
    hide CheckRunningAction, CountFailed, FailedOf, Resolved;
    var s1 := CheckRunningAction(s, Stage);
    var s2 := CheckRunningAction(s1, Archive);
    ActionRecounts(s, Stage, i);
    ActionRecounts(s1, Archive, i);
    ActionRecounts(s2, ClearHot, i);
  }
}
