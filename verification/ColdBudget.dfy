/** What the scheduler issues: thresholds, accounting, and no file left behind. */
module ColdBudget {
  import opened Arithmetic
  import opened ColdTypes
  import opened ColdModel
  import opened Locations
  import opened Catalog
  import opened Manager
  import opened Service
  import opened ColdInvariant
  import opened ColdPreservation
  import opened ColdRuns

  // ---------- Transfers issued by one operation ----------

  /** Newly issued transfers: all of that record and action, none finished. */
  ghost predicate AllNew(issued: seq<Transfer>, r: RecordId, action: Action) {
    forall k | 0 <= k < |issued| :: issued[k].record == r && issued[k].action == action && !issued[k].finished
  }

  lemma MoveStepIssues(c: seq<Location>, run: MoveRun, r: RecordId, f: CachedFile, action: Action, o: MoveOptions, env: Env)
    ensures var next, n := MoveStep(c, run, r, f, action, o, env), |run.issued|;
            if |next.issued| == n then next.issued == run.issued && next.cs.store.transfers == run.cs.store.transfers
            else
              && |next.issued| == n + 1 && next.issued == run.issued + [next.issued[n]]
              && next.cs.store.transfers == run.cs.store.transfers + [next.issued[n]]
              && AllNew([next.issued[n]], r, action)
  {
    hide IsScheduled, Destination;
  }

  /** The transfers issued are exactly the rows added to the table, and stay within the budget. */
  lemma {:induction false} MoveFilesIssue(c: seq<Location>, run: MoveRun, r: RecordId, files: seq<CachedFile>, action: Action,
                                          o: MoveOptions, env: Env, budget: int, base: seq<Transfer>)
    requires run.cs.store.transfers == base + run.issued && AllNew(run.issued, r, action)
    requires budget > 0 ==> |run.issued| < budget
    ensures var end := MoveFiles(c, run, r, files, action, o, env, budget);
            && end.cs.store.transfers == base + end.issued && AllNew(end.issued, r, action)
            && (budget > 0 ==> |end.issued| <= budget)
    decreases |files|
  {
    hide MoveStep;
    if files != [] {
      MoveStepIssues(c, run, r, files[0], action, o, env);
      var next := MoveStep(c, run, r, files[0], action, o, env);
      if |next.issued| != |run.issued| {
        var t := next.issued[|run.issued|];
        assert AllNew([t], r, action) && [t][0] == t;
        assert base + run.issued + [t] == base + (run.issued + [t]);
      }
      if !Exhausted(next, budget) {
        MoveFilesIssue(c, next, r, files[1..], action, o, env, budget, base);
      }
    }
  }

  lemma RecordMovedIssues(c: seq<Location>, cs: CatState, r: RecordId, limit: int, action: Action, o: MoveOptions, env: Env,
                          budget: int, file: string)
    ensures var (cs', issued) := RecordMoved(c, cs, r, limit, action, o, env, budget, file);
            && cs'.store.transfers == cs.store.transfers + issued && AllNew(issued, r, action)
            && (budget > 0 ==> |issued| <= budget)
  {
    hide MoveFiles;
    if r in cs.store.records {
      assert cs.store.transfers + [] == cs.store.transfers;
      MoveFilesIssue(c, MoveRun(cs, [], false, 0), r, SelectFiles(cs.store.records[r], limit, file), action, o, env, budget,
                     cs.store.transfers);
    } else {
      assert cs.store.transfers + [] == cs.store.transfers;
    }
  }

  // ---------- Threshold ----------

  lemma {:induction false} ActiveAppend(ts: seq<Transfer>, issued: seq<Transfer>, r: RecordId, action: Action, a: Action)
    requires AllNew(issued, r, action)
    ensures CountActive(ts + issued, a) == CountActive(ts, a) + if a == action then |issued| else 0
  {
    if issued == [] {
      assert ts + issued == ts;
    } else {
      var n := |issued| - 1;
      ActiveAppend(ts, issued[..n], r, action, a);
      assert (ts + issued)[..|ts + issued| - 1] == ts + issued[..n];
    }
  }

  lemma SubmitStepActive(c: Config, cs: CatState, action: Action, id: nat, budget: int, submitted: nat, env: Env, a: Action)
    requires id < |cs.store.requests| && submitted < budget
    ensures var (cs', submitted') := SubmitStep(c, cs, action, id, budget, submitted, env);
            && submitted <= submitted' <= budget
            && CountActive(cs'.store.transfers, a) == CountActive(cs.store.transfers, a)
                                                   + if a == action then submitted' - submitted else 0
  {
    hide RecordMoved;
    var q := cs.store.requests[id];
    RecordMovedIssues(c.locations, cs, q.record, 0, action, SERVICE_OPTIONS, env, budget - submitted, q.file);
    var (_, issued) := RecordMoved(c.locations, cs, q.record, 0, action, SERVICE_OPTIONS, env, budget - submitted, q.file);
    ActiveAppend(cs.store.transfers, issued, q.record, action, a);
  }

  /** Whatever requests were served so far, the unfinished transfers grew by what was submitted,
      which never exceeds the budget. */
  lemma {:induction false} SubmitLoopActive(c: Config, cs: CatState, action: Action, ids: seq<nat>, budget: int, submitted: nat,
                                            envs: nat -> Env, a: Action)
    requires (forall k | 0 <= k < |ids| :: ids[k] < |cs.store.requests|) && submitted < budget
    ensures var (cs', submitted') := SubmitLoop(c, cs, action, ids, budget, submitted, envs);
            && submitted <= submitted' <= budget
            && CountActive(cs'.store.transfers, a) == CountActive(cs.store.transfers, a)
                                                   + if a == action then submitted' - submitted else 0
    decreases |ids|
  {
    hide SubmitStep;
    if ids != [] {
      SubmitStepActive(c, cs, action, ids[0], budget, submitted, envs(ids[0]), a);
      var (cs', submitted') := SubmitStep(c, cs, action, ids[0], budget, submitted, envs(ids[0]));
      if budget - submitted' > 0 {
        SubmitLoopActive(c, cs', action, ids[1..], budget, submitted', envs, a);
      }
    }
  }

  lemma SubmittedActionActive(c: Config, cs: CatState, action: Action, envs: nat -> Env, a: Action)
    ensures var n := CountActive(CheckSubmittedAction(c, cs, action, envs).store.transfers, a);
            if a == action then n <= Max(CountActive(cs.store.transfers, a), Threshold(c, a))
            else n == CountActive(cs.store.transfers, a)
  {
    hide SubmitLoop, RequestIds;
    var budget := Threshold(c, action) - CountActive(cs.store.transfers, action);
    if Threshold(c, action) != 0 && budget > 0 {
      SubmitLoopActive(c, cs, action, RequestIds(cs.store.requests, Submitted, action), budget, 0, envs, a);
    }
  }

  /** A pass of check_submitted never brings the unfinished transfers of an action above its threshold. */
  lemma PassWithinThreshold(c: Config, s: Store, envs: (Action, nat) -> Env, a: Action)
    ensures CountActive(SubmittedChecked(c, s, envs).transfers, a) <= Max(CountActive(s.transfers, a), Threshold(c, a))
  {
    hide CheckSubmittedAction;
    var stage, archive := (id: nat) => envs(Stage, id), (id: nat) => envs(Archive, id);
    SubmittedActionActive(c, CatState(s, []), Stage, stage, a);
    var cs1 := CheckSubmittedAction(c, CatState(s, []), Stage, stage);
    SubmittedActionActive(c, cs1, Archive, archive, a);
  }

  // ---------- Accounting ----------

  function RequestTransfers(requests: seq<Request>, a: Action): nat {
    if requests == [] then 0
    else
      var last := requests[|requests| - 1];
      RequestTransfers(requests[..|requests| - 1], a) + if last.action == a then last.numTransfers else 0
  }

  function RequestSizes(requests: seq<Request>, a: Action): nat {
    if requests == [] then 0
    else
      var last := requests[|requests| - 1];
      RequestSizes(requests[..|requests| - 1], a) + if last.action == a then last.size else 0
  }

  function RowCount(transfers: seq<Transfer>, a: Action): nat {
    if transfers == [] then 0
    else
      var last := transfers[|transfers| - 1];
      RowCount(transfers[..|transfers| - 1], a) + if last.action == a then 1 else 0
  }

  function RowSizes(transfers: seq<Transfer>, a: Action): nat {
    if transfers == [] then 0
    else
      var last := transfers[|transfers| - 1];
      RowSizes(transfers[..|transfers| - 1], a) + if last.action == a then last.size else 0
  }

  /** The books balance: what the requests were charged is what the transfer table holds. */
  ghost predicate Balanced(s: Store, a: Action) {
    && RequestTransfers(s.requests, a) == RowCount(s.transfers, a)
    && RequestSizes(s.requests, a) == RowSizes(s.transfers, a)
  }

  lemma {:induction false} RowsAppend(ts: seq<Transfer>, issued: seq<Transfer>, r: RecordId, action: Action, a: Action)
    requires AllNew(issued, r, action)
    ensures RowCount(ts + issued, a) == RowCount(ts, a) + (if a == action then |issued| else 0)
    ensures RowSizes(ts + issued, a) == RowSizes(ts, a) + (if a == action then TransferSize(issued) else 0)
  {
    if issued == [] {
      assert ts + issued == ts;
    } else {
      var n := |issued| - 1;
      RowsAppend(ts, issued[..n], r, action, a);
      assert (ts + issued)[..|ts + issued| - 1] == ts + issued[..n];
    }
  }

  lemma {:induction false} ChargeSums(requests: seq<Request>, id: nat, q: Request, a: Action)
    requires id < |requests| && q.action == requests[id].action
    requires q.numTransfers >= requests[id].numTransfers && q.size >= requests[id].size
    ensures var requests' := requests[id := q];
            && RequestTransfers(requests', a) == RequestTransfers(requests, a)
                                              + (if q.action == a then q.numTransfers - requests[id].numTransfers else 0)
            && RequestSizes(requests', a) == RequestSizes(requests, a) + (if q.action == a then q.size - requests[id].size else 0)
  {
    var n := |requests| - 1;
    if id == n {
      assert requests[id := q][..n] == requests[..n];
    } else {
      ChargeSums(requests[..n], id, q, a);
      assert requests[id := q][..n] == requests[..n][id := q];
    }
  }

  lemma SubmitStepBalanced(c: Config, cs: CatState, action: Action, id: nat, budget: int, submitted: nat, env: Env, a: Action)
    requires id < |cs.store.requests| && cs.store.requests[id].action == action && Balanced(cs.store, a)
    ensures var (cs', _) := SubmitStep(c, cs, action, id, budget, submitted, env);
            && Balanced(cs'.store, a)
            && forall k | 0 <= k < |cs.store.requests| :: cs'.store.requests[k].action == cs.store.requests[k].action
  {
    hide RecordMoved, RequestTransfers, RequestSizes, RowCount, RowSizes, TransferSize, AllNew;
    var q := cs.store.requests[id];
    RecordMovedIssues(c.locations, cs, q.record, 0, action, SERVICE_OPTIONS, env, budget - submitted, q.file);
    var (_, issued) := RecordMoved(c.locations, cs, q.record, 0, action, SERVICE_OPTIONS, env, budget - submitted, q.file);
    RowsAppend(cs.store.transfers, issued, q.record, action, a);
    ChargeSums(cs.store.requests, id, Charged(q, issued, budget == submitted + |issued|), a);
  }

  lemma {:induction false} SubmitLoopBalanced(c: Config, cs: CatState, action: Action, ids: seq<nat>, budget: int, submitted: nat,
                                              envs: nat -> Env, a: Action)
    requires forall k | 0 <= k < |ids| :: ids[k] < |cs.store.requests| && cs.store.requests[ids[k]].action == action
    requires Balanced(cs.store, a)
    ensures Balanced(SubmitLoop(c, cs, action, ids, budget, submitted, envs).0.store, a)
    decreases |ids|
  {
    hide SubmitStep, Balanced;
    if ids != [] {
      SubmitStepBalanced(c, cs, action, ids[0], budget, submitted, envs(ids[0]), a);
      var (cs', submitted') := SubmitStep(c, cs, action, ids[0], budget, submitted, envs(ids[0]));
      if budget - submitted' > 0 {
        SubmitLoopBalanced(c, cs', action, ids[1..], budget, submitted', envs, a);
      }
    }
  }

  lemma SubmittedActionBalanced(c: Config, cs: CatState, action: Action, envs: nat -> Env, a: Action)
    requires Balanced(cs.store, a)
    ensures Balanced(CheckSubmittedAction(c, cs, action, envs).store, a)
  {
    hide SubmitLoop, Balanced;
    var ids := RequestIds(cs.store.requests, Submitted, action);
    RequestIdsExact(cs.store.requests, Submitted, action);
    SubmitLoopBalanced(c, cs, action, ids, Threshold(c, action) - CountActive(cs.store.transfers, action), 0, envs, a);
  }

  lemma PassBalanced(c: Config, s: Store, envs: (Action, nat) -> Env, a: Action)
    requires Balanced(s, a)
    ensures Balanced(SubmittedChecked(c, s, envs), a)
  {
    hide CheckSubmittedAction, Balanced;
    var stage, archive := (id: nat) => envs(Stage, id), (id: nat) => envs(Archive, id);
    SubmittedActionBalanced(c, CatState(s, []), Stage, stage, a);
    var cs1 := CheckSubmittedAction(c, CatState(s, []), Stage, stage);
    SubmittedActionBalanced(c, cs1, Archive, archive, a);
  }

  // ---------- Whole runs in which only check_submitted issues transfers ----------

  lemma {:induction false} UpdateRow(ts: seq<Transfer>, id: nat, t: Transfer, a: Action)
    requires id < |ts| && t.action == ts[id].action && t.size == ts[id].size && (ts[id].finished ==> t.finished)
    ensures CountActive(ts[id := t], a) <= CountActive(ts, a)
    ensures RowCount(ts[id := t], a) == RowCount(ts, a) && RowSizes(ts[id := t], a) == RowSizes(ts, a)
  {
    var n := |ts| - 1;
    if id == n {
      assert ts[id := t][..n] == ts[..n];
    } else {
      UpdateRow(ts[..n], id, t, a);
      assert ts[id := t][..n] == ts[..n][id := t];
    }
  }

  lemma {:induction false} TransferLoopBooks(cs: CatState, order: seq<nat>, answers: nat -> TransferStatus, a: Action)
    requires forall k | 0 <= k < |order| :: order[k] < |cs.store.transfers|
    ensures var s, s' := cs.store, TransferLoop(cs, order, answers).store;
            && s'.requests == s.requests
            && CountActive(s'.transfers, a) <= CountActive(s.transfers, a)
            && RowCount(s'.transfers, a) == RowCount(s.transfers, a) && RowSizes(s'.transfers, a) == RowSizes(s.transfers, a)
    decreases |order|
  {
    if order != [] {
      var t, status := cs.store.transfers[order[0]], answers(order[0]);
      UpdateRow(cs.store.transfers, order[0], t.(status := status, finished := t.finished || Finishes(status)), a);
      TransferLoopBooks(TransferStep(cs, order[0], status), order[1..], answers, a);
    }
  }

  lemma PollBooks(s: Store, order: seq<nat>, answers: nat -> TransferStatus, a: Action)
    requires Ongoing(s, order)
    ensures var s' := TransfersProcessed(s, order, answers);
            && CountActive(s'.transfers, a) <= CountActive(s.transfers, a)
            && (Balanced(s, a) ==> Balanced(s', a))
  {
    hide TransferLoop, RefreshAll;
    TransferLoopBooks(CatState(s, []), order, answers, a);
  }

  lemma {:induction false} RunningLoopBooks(s: Store, action: Action, ids: seq<nat>, a: Action)
    requires forall k | 0 <= k < |ids| :: ids[k] < |s.requests|
    ensures var s' := RunningLoop(s, action, ids);
            && s'.transfers == s.transfers
            && RequestTransfers(s'.requests, a) == RequestTransfers(s.requests, a)
            && RequestSizes(s'.requests, a) == RequestSizes(s.requests, a)
    decreases |ids|
  {
    hide SaveAvailability, IndicesArchived, Resolved, CountFailed;
    if ids != [] {
      var next := RunningStep(s, action, ids[0]);
      ChargeSums(s.requests, ids[0], next.requests[ids[0]], a);
      assert s.requests[ids[0] := next.requests[ids[0]]] == next.requests;
      RunningLoopBooks(next, action, ids[1..], a);
    }
  }

  lemma CompleteBooks(s: Store, a: Action)
    ensures var s' := RunningChecked(s);
            s'.transfers == s.transfers && (Balanced(s, a) ==> Balanced(s', a))
  {
    hide RunningLoop;
    RunningLoopBooks(s, Stage, RequestIds(s.requests, Started, Stage), a);
    var s1 := CheckRunningAction(s, Stage);
    RunningLoopBooks(s1, Archive, RequestIds(s1.requests, Started, Archive), a);
    var s2 := CheckRunningAction(s1, Archive);
    RunningLoopBooks(s2, ClearHot, RequestIds(s2.requests, Started, ClearHot), a);
  }

  lemma {:induction false} ClearFilesBooks(cs: CatState, r: RecordId, files: seq<CachedFile>, force: bool, dry: bool,
                                           removable: string -> bool, cleared: bool)
    ensures var s' := ClearFiles(cs, r, files, force, dry, removable, cleared).0.store;
            s'.transfers == cs.store.transfers && s'.requests == cs.store.requests
    decreases |files|
  {
    if files != [] {
      if !IsQos(files[0], Archive) || !IsQos(files[0], Stage) {
        ClearFilesBooks(cs, r, files[1..], force, dry, removable, cleared);
      } else {
        var cs0 := cs.(store := RemoveHot(cs.store, files[0].row.uri, dry, removable));
        var (ok, cs1) := MarkHotDeleted(cs0, r, files[0].row.id, force);
        if ok {
          ClearFilesBooks(cs1, r, files[1..], force, dry, removable, true);
        }
      }
    }
  }

  lemma ClearBooks(s: Store, r: RecordId, limit: int, force: bool, dry: bool, removable: string -> bool, file: string)
    ensures var s' := RecordCleared(CatState(s, []), r, limit, force, dry, removable, file).0.store;
            s'.transfers == s.transfers && s'.requests == s.requests
  {
    hide ClearFiles, RefreshAll;
    if r in s.records {
      ClearFilesBooks(CatState(s, []), r, SelectFiles(s.records[r], limit, file), force, dry, removable, false);
    }
  }

  lemma AppendRequest(requests: seq<Request>, q: Request, a: Action)
    requires q.numTransfers == 0 && q.size == 0
    ensures RequestTransfers(requests + [q], a) == RequestTransfers(requests, a)
    ensures RequestSizes(requests + [q], a) == RequestSizes(requests, a)
  {
    assert (requests + [q])[..|requests|] == requests;
  }

  /** The books and the threshold, as kept by every step but the operator's own transfers. */
  ghost predicate Disciplined(c: Config, s: Store, a: Action) {
    Balanced(s, a) && CountActive(s.transfers, a) <= Max(0, Threshold(c, a))
  }

  lemma NextDisciplined(c: Config, s: Store, step: Step, a: Action)
    requires Enabled(s, step) && !step.Move? && Disciplined(c, s, a)
    ensures Disciplined(c, Next(c, s, step), a)
  {
    hide RunningChecked, RecordMoved, RecordCleared, SubmittedChecked, TransfersProcessed, Ongoing;
    match step
    case AskStage(r, file, emailValid) => AppendRequest(s.requests, Request(r, Stage, file, Submitted, 0, 0, 0), a);
    case AskArchive(r, file) => AppendRequest(s.requests, Request(r, Archive, file, Submitted, 0, 0, 0), a);
    case Submit(envs) =>
      PassWithinThreshold(c, s, envs, a);
      PassBalanced(c, s, envs, a);
    case Complete => CompleteBooks(s, a);
    case Poll(order, answers) => PollBooks(s, order, answers, a);
    case Clear(r, limit, force, dry, removable, file) => ClearBooks(s, r, limit, force, dry, removable, file);
    case Appear(url) =>
  }

  lemma {:induction false} RunDisciplined(c: Config, s: Store, steps: seq<Step>, a: Action)
    requires Possible(c, s, steps) && (forall k | 0 <= k < |steps| :: !steps[k].Move?) && Disciplined(c, s, a)
    ensures Disciplined(c, End(c, s, steps), a)
    decreases |steps|
  {
    hide Disciplined, Next, Enabled;
    if steps != [] {
      NextDisciplined(c, s, steps[0], a);
      RunDisciplined(c, Next(c, s, steps[0]), steps[1..], a);
    }
  }

  /** The unfinished transfers of an action, by their positions. */
  ghost function Unfinished(transfers: seq<Transfer>, a: Action): set<nat> {
    set i: nat | i < |transfers| && transfers[i].action == a && !transfers[i].finished
  }

  lemma {:induction false} CountActiveExact(transfers: seq<Transfer>, a: Action)
    ensures CountActive(transfers, a) == |Unfinished(transfers, a)|
  {
    if transfers != [] {
      var n := |transfers| - 1;
      CountActiveExact(transfers[..n], a);
      if transfers[n].action == a && !transfers[n].finished {
        assert Unfinished(transfers, a) == Unfinished(transfers[..n], a) + {n};
      } else {
        assert Unfinished(transfers, a) == Unfinished(transfers[..n], a);
      }
    }
  }

  /** Threshold safety: if only check_submitted issues transfers, the unfinished transfers of an action never
      exceed its threshold (and no transfer is ever issued for an action without one). */
  lemma ThresholdSafety(c: Config, s0: Store, steps: seq<Step>, a: Action)
    requires s0.transfers == [] && s0.requests == [] && Possible(c, s0, steps) && forall k | 0 <= k < |steps| :: !steps[k].Move?
    ensures |Unfinished(End(c, s0, steps).transfers, a)|
         <= match a
            case Stage => Max(0, c.stageThreshold)
            case Archive => Max(0, c.archiveThreshold)
            case ClearHot => 0
  {
    RunDisciplined(c, s0, steps, a);
    CountActiveExact(End(c, s0, steps).transfers, a);
  }

  /** Accounting: in the same runs the requests account for every transfer row, in number and in size. */
  lemma AccountingConserved(c: Config, s0: Store, steps: seq<Step>, a: Action)
    requires s0.transfers == [] && s0.requests == [] && Possible(c, s0, steps) && forall k | 0 <= k < |steps| :: !steps[k].Move?
    ensures var s := End(c, s0, steps);
            && RequestTransfers(s.requests, a) == RowCount(s.transfers, a)
            && RequestSizes(s.requests, a) == RowSizes(s.transfers, a)
  {
    RunDisciplined(c, s0, steps, a);
  }

  // ---------- No file left behind ----------

  /** The storage did not take the file: no destination is known, or it refused the transfer. */
  ghost predicate Refused(c: seq<Location>, f: CachedFile, action: Action, env: Env) {
    match Destination(c, f, action)
    case None => true
    case Some(dest) => !env.verified(dest) && !env.accepts(f.row.id)
  }

  /** The tag table says that the file is where the action wants it. */
  ghost predicate InPlace(s: Store, id: FileId, action: Action) {
    var t := TagsOf(s.tags, id);
    if action.Archive? then t.cold.Some? else !t.hotDeleted
  }

  ghost predicate TakenCareOf(c: seq<Location>, s: Store, f: CachedFile, action: Action, env: Env) {
    InPlace(s, f.row.id, action) || IsScheduled(s, f.row.id, action) || Refused(c, f, action, env)
  }

  /** Later updates of the same operation do not undo what was reached. */
  ghost predicate Onward(s: Store, s': Store, action: Action) {
    && (forall id | InPlace(s, id, action) :: InPlace(s', id, action))
    && |s.transfers| <= |s'.transfers|
    && (forall i | 0 <= i < |s.transfers| :: s'.transfers[i] == s.transfers[i])
  }

  lemma OnwardKeeps(c: seq<Location>, s: Store, s': Store, f: CachedFile, action: Action, env: Env)
    requires Onward(s, s', action) && TakenCareOf(c, s, f, action, env)
    ensures TakenCareOf(c, s', f, action, env)
  {
    if IsScheduled(s, f.row.id, action) {
      var i :| 0 <= i < |s.transfers| && s.transfers[i].file == f.row.id && s.transfers[i].action == action && !s.transfers[i].finished;
      assert s'.transfers[i].file == f.row.id;
    }
  }

  lemma MoveFileTakesCare(c: seq<Location>, cs: CatState, r: RecordId, f: CachedFile, action: Action, env: Env)
    requires !action.ClearHot? && f.row.id in cs.store.tags && f.tags == cs.store.tags[f.row.id]
    ensures var cs' := MoveFile(c, cs, r, f, action, SERVICE_OPTIONS, env).1;
            TakenCareOf(c, cs'.store, f, action, env) && Onward(cs.store, cs'.store, action)
  {
    hide Destination;
    var (status, cs') := MoveFile(c, cs, r, f, action, SERVICE_OPTIONS, env);
    if status.Created? {
      var n := |cs.store.transfers|;
      assert cs'.store.transfers[n].file == f.row.id && !cs'.store.transfers[n].finished;
    }
  }

  lemma {:induction false} MoveFilesTakeCare(c: seq<Location>, run: MoveRun, r: RecordId, files: seq<CachedFile>, action: Action,
                                             env: Env, budget: int, f: CachedFile)
    requires !action.ClearHot? && (forall k | 0 <= k < |files| :: files[k].row.id in run.cs.store.tags)
    requires exists rows :: Lists(files, rows, run.cs.store.tags)
    requires f in files || TakenCareOf(c, run.cs.store, f, action, env)
    ensures var end := MoveFiles(c, run, r, files, action, SERVICE_OPTIONS, env, budget);
            && (f !in files || budget == 0 || |end.issued| < budget ==> TakenCareOf(c, end.cs.store, f, action, env))
            && Onward(run.cs.store, end.cs.store, action)
            && |end.issued| >= |run.issued|
    decreases |files|
  {
    hide TakenCareOf, MoveFile, Onward;
    if files == [] {
      assert Onward(run.cs.store, run.cs.store, action) by {
        OnwardReflexive(run.cs.store, action);
      }
    } else {
      var rows :| Lists(files, rows, run.cs.store.tags);
      MoveFileTakesCare(c, run.cs, r, files[0], action, env);
      MoveFileFrameTags(c, run.cs, r, files[0], action, env);
      var next := MoveStep(c, run, r, files[0], action, SERVICE_OPTIONS, env);
      if TakenCareOf(c, run.cs.store, f, action, env) {
        OnwardKeeps(c, run.cs.store, next.cs.store, f, action, env);
      }
      ListsTail(files, rows, run.cs.store.tags, next.cs.store.tags);
      if !Exhausted(next, budget) {
        MoveFilesTakeCare(c, next, r, files[1..], action, env, budget, f);
        OnwardTransitive(run.cs.store, next.cs.store,
                         MoveFiles(c, next, r, files[1..], action, SERVICE_OPTIONS, env, budget).cs.store, action);
      }
    }
  }

  lemma OnwardReflexive(s: Store, action: Action)
    ensures Onward(s, s, action)
  {
  }

  lemma OnwardTransitive(s: Store, s1: Store, s2: Store, action: Action)
    requires Onward(s, s1, action) && Onward(s1, s2, action)
    ensures Onward(s, s2, action)
  {
  }

  lemma MoveFileFrameTags(c: seq<Location>, cs: CatState, r: RecordId, f: CachedFile, action: Action, env: Env)
    ensures var cs' := MoveFile(c, cs, r, f, action, SERVICE_OPTIONS, env).1;
            && (forall id | id != f.row.id :: TagsOf(cs'.store.tags, id) == TagsOf(cs.store.tags, id))
            && cs'.store.tags.Keys == cs.store.tags.Keys
  {
    hide IsScheduled, Destination;
  }

  /** When serving a request whose record exists moves it to started, every file it selects was visited, and is
      then in place, covered by an unfinished transfer, or was refused by the storage. */
  lemma NoFileLeftBehind(c: Config, s: Store, action: Action, id: nat, budget: int, submitted: nat, env: Env, f: CachedFile)
    requires Inv(s) && id < |s.requests| && !action.ClearHot? && submitted < budget
    requires var q := s.requests[id]; q.status == Submitted && f in NamedFiles(s.records[q.record], q.file)
    requires SubmitStep(c, CatState(s, []), action, id, budget, submitted, env).0.store.requests[id].status == Started
    ensures TakenCareOf(c.locations, SubmitStep(c, CatState(s, []), action, id, budget, submitted, env).0.store, f, action, env)
  {
    hide Inv, TakenCareOf, RecordMoved, NamedFiles;
    var q := s.requests[id];
    RequestResolves(s, id);
    var (cs', issued) := RecordMoved(c.locations, CatState(s, []), q.record, 0, action, SERVICE_OPTIONS, env, budget - submitted, q.file);
    RecordMovedIssues(c.locations, CatState(s, []), q.record, 0, action, SERVICE_OPTIONS, env, budget - submitted, q.file);
    RecordMovedTakesCare(c.locations, s, action, q.record, q.file, env, budget - submitted, f);
    SameTables(c.locations, cs'.store, SubmitStep(c, CatState(s, []), action, id, budget, submitted, env).0.store, f, action, env);
  }

  /** An operation that stays below its budget has visited every selected file. */
  lemma RecordMovedTakesCare(c: seq<Location>, s: Store, action: Action, r: RecordId, name: string, env: Env, budget: int,
                             f: CachedFile)
    requires Inv(s) && r in s.records && !action.ClearHot? && f in NamedFiles(s.records[r], name)
    ensures var (cs', issued) := RecordMoved(c, CatState(s, []), r, 0, action, SERVICE_OPTIONS, env, budget, name);
            |issued| < budget ==> TakenCareOf(c, cs'.store, f, action, env)
  {
    hide Inv, Lists, TakenCareOf, MoveFiles, RefreshAll, NamedFiles, Onward;
    SelectedRows(s, r, name);
    var files := NamedFiles(s.records[r], name);
    var run := MoveRun(CatState(s, []), [], false, 0);
    MoveFilesTakeCare(c, run, r, files, action, env, budget, f);
    var end := MoveFiles(c, run, r, files, action, SERVICE_OPTIONS, env, budget);
    if |end.issued| < budget {
      SameTables(c, end.cs.store,
                 RecordMoved(c, CatState(s, []), r, 0, action, SERVICE_OPTIONS, env, budget, name).0.store, f, action, env);
    }
  }

  lemma SameTables(c: seq<Location>, s: Store, s': Store, f: CachedFile, action: Action, env: Env)
    requires TakenCareOf(c, s, f, action, env) && s'.tags == s.tags && s'.transfers == s.transfers
    ensures TakenCareOf(c, s', f, action, env)
  {
  }

  lemma SelectedRows(s: Store, r: RecordId, name: string)
    requires Inv(s) && r in s.records
    ensures r in s.layout && Lists(NamedFiles(s.records[r], name), Rows(s.layout[r]), s.tags)
    ensures forall k | 0 <= k < |NamedFiles(s.records[r], name)| :: NamedFiles(s.records[r], name)[k].row.id in s.tags
  {
    NamedFilesList(s, r, name);
    var files := NamedFiles(s.records[r], name);
    forall k | 0 <= k < |files| ensures files[k].row.id in s.tags {
      assert Holds(s.layout, r, files[k].row);
    }
  }
}
