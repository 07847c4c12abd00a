/** No file left behind, over a whole pass of check_submitted. */
module ColdVisits {
  import opened ColdTypes
  import opened ColdModel
  import opened Locations
  import opened Catalog
  import opened Manager
  import opened Service
  import opened ColdInvariant
  import opened ColdPreservation
  import opened ColdRuns
  import opened ColdBudget
  import opened ColdDrain

  /** What no submission undoes: files in place stay there, and transfers stay. Staging leaves the cold URLs alone. */
  ghost predicate Advances(s: Store, s': Store, action: Action) {
    && s'.layout == s.layout
    && (forall a :: Onward(s, s', a))
    && (action.Stage? ==> forall id :: TagsOf(s'.tags, id).cold == TagsOf(s.tags, id).cold)
  }

  lemma AdvancesJoin(s: Store, s1: Store, s2: Store, action: Action)
    requires Advances(s, s1, action) && Advances(s1, s2, action)
    ensures Advances(s, s2, action)
  {
    hide Onward, TagsOf;
    forall a ensures Onward(s, s2, a) {
      OnwardTransitive(s, s1, s2, a);
    }
  }

  lemma AdvancesSame(s: Store, s1: Store, s2: Store, action: Action)
    requires Advances(s, s1, action)
    requires s2.layout == s1.layout && s2.tags == s1.tags && s2.transfers == s1.transfers
    ensures Advances(s, s2, action)
  {
    forall a ensures Onward(s, s2, a) {
      assert Onward(s, s1, a);
    }
  }

  lemma AdvancesSelf(s: Store, action: Action)
    ensures Advances(s, s, action)
  {
  }

  lemma MoveFileAdvances(c: seq<Location>, cs: CatState, r: RecordId, f: CachedFile, action: Action, env: Env)
    requires !action.ClearHot?
    ensures Advances(cs.store, MoveFile(c, cs, r, f, action, SERVICE_OPTIONS, env).1.store, action)
  {
    hide Destination, IsScheduled, IsQos;
  }

  lemma {:induction false} MoveFilesAdvances(c: seq<Location>, run: MoveRun, r: RecordId, files: seq<CachedFile>,
                                             action: Action, env: Env, budget: int)
    requires !action.ClearHot?
    ensures Advances(run.cs.store, MoveFiles(c, run, r, files, action, SERVICE_OPTIONS, env, budget).cs.store, action)
    decreases |files|
  {
    hide Advances, MoveFile;
    if files == [] {
      AdvancesSelf(run.cs.store, action);
    } else {
      MoveFileAdvances(c, run.cs, r, files[0], action, env);
      var next := MoveStep(c, run, r, files[0], action, SERVICE_OPTIONS, env);
      if !Exhausted(next, budget) {
        MoveFilesAdvances(c, next, r, files[1..], action, env, budget);
        AdvancesJoin(run.cs.store, next.cs.store,
                     MoveFiles(c, next, r, files[1..], action, SERVICE_OPTIONS, env, budget).cs.store, action);
      }
    }
  }

  /** Only the listed requests change, and not in what they ask for. */
  ghost predicate Serves(s: Store, s': Store, ids: seq<nat>) {
    && |s'.requests| == |s.requests|
    && (forall k | 0 <= k < |s.requests| :: s'.requests[k].action == s.requests[k].action)
    && (forall k | 0 <= k < |s.requests| && k !in ids :: s'.requests[k] == s.requests[k])
  }

  lemma SubmitStepAdvances(c: Config, s: Store, action: Action, id: nat, budget: int, submitted: nat, env: Env)
    requires id < |s.requests| && !action.ClearHot?
    ensures var s' := SubmitStep(c, CatState(s, []), action, id, budget, submitted, env).0.store;
            Advances(s, s', action) && Serves(s, s', [id])
  {
    hide Advances, MoveFiles, RefreshAll, NamedFiles;
    var q, left := s.requests[id], budget - submitted;
    var s' := SubmitStep(c, CatState(s, []), action, id, budget, submitted, env).0.store;
    if q.record in s.records {
      var files, run := SelectFiles(s.records[q.record], 0, q.file), MoveRun(CatState(s, []), [], false, 0);
      MoveFilesAdvances(c.locations, run, q.record, files, action, env, left);
      AdvancesSame(s, MoveFiles(c.locations, run, q.record, files, action, SERVICE_OPTIONS, env, left).cs.store, s', action);
    } else {
      AdvancesSelf(s, action);
      AdvancesSame(s, s, s', action);
    }
  }

  /** The rest of the loop undoes nothing, and leaves the requests alone that it does not serve. */
  lemma {:induction false} SubmitLoopAdvances(c: Config, s: Store, action: Action, ids: seq<nat>, budget: int, submitted: nat,
                                              envs: nat -> Env)
    requires Inv(s) && (forall k | 0 <= k < |ids| :: ids[k] < |s.requests|) && !action.ClearHot?
    ensures var s' := SubmitLoop(c, CatState(s, []), action, ids, budget, submitted, envs).0.store;
            Inv(s') && Advances(s, s', action) && Serves(s, s', ids)
    decreases |ids|
  {
    hide Inv, SubmitStep, Advances;
    if ids == [] {
      AdvancesSelf(s, action);
    } else {
      SubmitStepKeeps(c, s, action, ids[0], budget, submitted, envs(ids[0]));
      SubmitStepAdvances(c, s, action, ids[0], budget, submitted, envs(ids[0]));
      var (cs', submitted') := SubmitStep(c, CatState(s, []), action, ids[0], budget, submitted, envs(ids[0]));
      if budget - submitted' > 0 {
        SubmitLoopAdvances(c, cs'.store, action, ids[1..], budget, submitted', envs);
        AdvancesJoin(s, cs'.store, SubmitLoop(c, cs', action, ids[1..], budget, submitted', envs).0.store, action);
      }
      assert ids == [ids[0]] + ids[1..];
    }
  }

  // ---------- One file ----------

  /** The request selects the file. */
  ghost predicate Selects(s: Store, id: nat, row: FileRow) {
    && id < |s.requests| && s.requests[id].record in s.layout
    && row in SelectedBy(s.layout[s.requests[id].record], s.requests[id].file)
  }

  /** The file, as the tag table has it, is in place, covered by an unfinished transfer, or refused by the storage. */
  ghost predicate Handled(c: seq<Location>, s: Store, row: FileRow, s': Store, action: Action, env: Env) {
    TakenCareOf(c, s', FreshFile(row, s.tags), action, env)
  }

  lemma HandledLater(c: seq<Location>, s: Store, row: FileRow, s1: Store, s2: Store, action: Action, env: Env, step: Action)
    requires Handled(c, s, row, s1, action, env) && Advances(s1, s2, step)
    ensures Handled(c, s, row, s2, action, env)
  {
    hide Onward, TakenCareOf;
    OnwardKeeps(c, s1, s2, FreshFile(row, s.tags), action, env);
  }

  /** A step of that action, or of staging, does not change where the file would be copied to. */
  lemma HandledEarlier(c: seq<Location>, s: Store, row: FileRow, s1: Store, s2: Store, action: Action, env: Env, step: Action)
    requires Advances(s, s1, step) && (step.Stage? || action == step == Archive) && !action.ClearHot?
    requires Handled(c, s1, row, s2, action, env)
    ensures Handled(c, s, row, s2, action, env)
  {
    hide FindUrl, Onward;
    assert Destination(c, FreshFile(row, s1.tags), action) == Destination(c, FreshFile(row, s.tags), action);
  }

  lemma SelectedFile(s: Store, id: nat, row: FileRow)
    requires Inv(s) && Selects(s, id, row)
    ensures s.requests[id].record in s.records
    ensures FreshFile(row, s.tags) in NamedFiles(s.records[s.requests[id].record], s.requests[id].file)
  {
    var q := s.requests[id];
    RequestResolves(s, id);
    SelectedRows(s, q.record, q.file);
    RecordAgrees(s, q.record);
    SelectedMatch(s, q.record, q.file);
    hide Inv, Agrees, NamedFiles, SelectedBy, Rows, FreshFile;
    var files, rows := NamedFiles(s.records[q.record], q.file), SelectedBy(s.layout[q.record], q.file);
    var k :| 0 <= k < |rows| && rows[k] == row;
    assert files[k] == FreshFile(row, s.tags);
  }

  lemma SelectsInRange(s: Store, id: nat, row: FileRow)
    requires Selects(s, id, row)
    ensures id < |s.requests|
  {
  }

  lemma SelectsStill(s: Store, s': Store, id: nat, row: FileRow)
    requires Selects(s, id, row) && id < |s'.requests| && s'.layout == s.layout
    requires s'.requests[id].record == s.requests[id].record && s'.requests[id].file == s.requests[id].file
    ensures Selects(s', id, row)
  {
  }

  /** The loop over the submitted requests, seen at one request that it starts. */
  lemma {:induction false} LoopVisits(c: Config, s: Store, action: Action, ids: seq<nat>, budget: int, submitted: nat,
                                      envs: nat -> Env, id: nat, row: FileRow)
    requires Inv(s) && !action.ClearHot? && submitted < budget && Selects(s, id, row) && s.requests[id].status == Submitted
    requires (forall k | 0 <= k < |ids| :: ids[k] < |s.requests|) && (forall j, k | 0 <= j < k < |ids| :: ids[j] < ids[k])
    requires SubmitLoop(c, CatState(s, []), action, ids, budget, submitted, envs).0.store.requests[id].status == Started
    ensures Handled(c.locations, s, row, SubmitLoop(c, CatState(s, []), action, ids, budget, submitted, envs).0.store,
                    action, envs(id))
    decreases |ids|
  {
    hide Inv, SubmitStep, Advances, Selects, Handled;
    if ids != [] {
      SelectsInRange(s, id, row);
      var first, rest := ids[0], ids[1..];
      var (cs1, submitted1) := SubmitStep(c, CatState(s, []), action, first, budget, submitted, envs(first));
      var end := SubmitLoop(c, CatState(s, []), action, ids, budget, submitted, envs).0.store;
      assert forall k | 0 <= k < |rest| :: rest[k] == ids[k + 1] && first < ids[k + 1];
      SubmitStepKeeps(c, s, action, first, budget, submitted, envs(first));
      SubmitStepAdvances(c, s, action, first, budget, submitted, envs(first));
      if first == id {
        if budget - submitted1 > 0 {
          SubmitLoopAdvances(c, cs1.store, action, rest, budget, submitted1, envs);
          assert id !in rest;
        } else {
          AdvancesSelf(cs1.store, action);
        }
        StepVisits(c, s, action, id, budget, submitted, envs(id), row);
        HandledLater(c.locations, s, row, cs1.store, end, action, envs(id), action);
      } else {
        RestSelects(s, cs1.store, action, id, row);
        LoopVisits(c, cs1.store, action, rest, budget, submitted1, envs, id, row);
        HandledEarlier(c.locations, s, row, cs1.store, end, action, envs(id), action);
      }
    }
  }

  lemma RestSelects(s: Store, s1: Store, action: Action, id: nat, row: FileRow)
    requires Selects(s, id, row) && Advances(s, s1, action) && id < |s1.requests| && s1.requests[id] == s.requests[id]
    ensures Selects(s1, id, row)
  {
    hide Onward;
    SelectsStill(s, s1, id, row);
  }

  lemma StepVisits(c: Config, s: Store, action: Action, id: nat, budget: int, submitted: nat, env: Env, row: FileRow)
    requires Inv(s) && !action.ClearHot? && submitted < budget && Selects(s, id, row) && s.requests[id].status == Submitted
    requires SubmitStep(c, CatState(s, []), action, id, budget, submitted, env).0.store.requests[id].status == Started
    ensures Handled(c.locations, s, row, SubmitStep(c, CatState(s, []), action, id, budget, submitted, env).0.store, action, env)
  {
    hide Inv, SubmitStep, TakenCareOf, NamedFiles, FreshFile;
    SelectedFile(s, id, row);
    NoFileLeftBehind(c, s, action, id, budget, submitted, env, FreshFile(row, s.tags));
  }

  // ---------- The pass ----------

  lemma ActionAdvances(c: Config, s: Store, action: Action, envs: nat -> Env)
    requires Inv(s) && !action.ClearHot?
    ensures var cs' := CheckSubmittedAction(c, CatState(s, []), action, envs);
            && cs'.queue == [] && Inv(cs'.store) && Advances(s, cs'.store, action) && |cs'.store.requests| == |s.requests|
            && (forall k | 0 <= k < |s.requests| :: cs'.store.requests[k].action == s.requests[k].action)
            && forall k | 0 <= k < |s.requests| && s.requests[k].action != action :: cs'.store.requests[k] == s.requests[k]
  {
    hide Inv, SubmitLoop, Advances, RequestIds;
    var ids, budget := RequestIds(s.requests, Submitted, action), Threshold(c, action) - CountActive(s.transfers, action);
    AdvancesSelf(s, action);
    SubmitLoopKeeps(c, s, action, ids, budget, 0, envs);
    SubmitLoopAdvances(c, s, action, ids, budget, 0, envs);
    forall k: nat | k < |s.requests| && s.requests[k].action != action ensures k !in ids {
      RequestListed(s.requests, Submitted, action, k);
    }
  }

  lemma ActionVisits(c: Config, s: Store, action: Action, envs: nat -> Env, id: nat, row: FileRow)
    requires Inv(s) && !action.ClearHot? && Selects(s, id, row) && s.requests[id].status == Submitted
    requires var s' := CheckSubmittedAction(c, CatState(s, []), action, envs).store;
             id < |s'.requests| && s'.requests[id].status == Started
    ensures Handled(c.locations, s, row, CheckSubmittedAction(c, CatState(s, []), action, envs).store, action, envs(id))
  {
    hide Inv, SubmitLoop, Selects, Handled;
    var ids, budget := RequestIds(s.requests, Submitted, action), Threshold(c, action) - CountActive(s.transfers, action);
    SelectsInRange(s, id, row);
    if Threshold(c, action) != 0 && budget > 0 {
      RequestIdsExact(s.requests, Submitted, action);
      LoopVisits(c, s, action, ids, budget, 0, envs, id, row);
    }
  }

  /** No file left behind: when a pass of check_submitted starts a request, then at the end of the pass every file the
      request selects is in place, covered by an unfinished transfer, or was refused by the storage. */
  lemma NoFileLeftBehindInPass(c: Config, s: Store, envs: (Action, nat) -> Env, id: nat, row: FileRow)
    requires Inv(s) && Selects(s, id, row) && s.requests[id].status == Submitted && !s.requests[id].action.ClearHot?
    ensures var s' := SubmittedChecked(c, s, envs);
            && |s'.requests| == |s.requests|
            && (s'.requests[id].status == Started ==>
                  Handled(c.locations, s, row, s', s.requests[id].action, envs(s.requests[id].action, id)))
  {
    hide Inv, CheckSubmittedAction, Selects, Handled, Advances;
    var stage, archive := (id: nat) => envs(Stage, id), (id: nat) => envs(Archive, id);
    ActionAdvances(c, s, Stage, stage);
    var cs1 := CheckSubmittedAction(c, CatState(s, []), Stage, stage);
    assert cs1 == CatState(cs1.store, []);
    ActionAdvances(c, cs1.store, Archive, archive);
    var s' := SubmittedChecked(c, s, envs);
    assert s' == CheckSubmittedAction(c, cs1, Archive, archive).store;
    assert id < |s.requests| by { SelectsInRange(s, id, row); }
    if s'.requests[id].status == Started {
      if s.requests[id].action == Archive {
        RestSelects(s, cs1.store, Stage, id, row);
        ActionVisits(c, cs1.store, Archive, archive, id, row);
        HandledEarlier(c.locations, s, row, cs1.store, s', Archive, archive(id), Stage);
      } else {
        ActionVisits(c, s, Stage, stage, id, row);
        HandledLater(c.locations, s, row, cs1.store, s', Stage, stage(id), Archive);
      }
    }
  }
}
