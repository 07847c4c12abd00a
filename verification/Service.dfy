/** The periodic services: submission under a budget, completion of requests, and transfer status. */
module Service {
  import opened ColdTypes
  import opened ColdModel
  import opened Locations
  import opened Catalog
  import opened Manager

  /** A threshold of zero stands for no threshold. */
  datatype Config = Config(locations: seq<Location>, stageThreshold: int, archiveThreshold: int)

  function Threshold(c: Config, action: Action): int {
    match action
    case Stage => c.stageThreshold
    case Archive => c.archiveThreshold
    case ClearHot => 0
  }

  const SERVICE_OPTIONS := MoveOptions(true, false, false)

  // ---------- Specification functions ----------

  /** A user asks for a record, or for one of its file indices. */
  function UserStage(s: Store, r: RecordId, file: string, emailValid: bool): Store
    requires r in s.records
  {
    if !emailValid then s
    else s.(requests := s.requests + [Request(r, Stage, file, Submitted, 0, 0, 0)],
            records := s.records[r := s.records[r].(availability := Requested)])
  }

  /** The positions of the requests with that status and action, in table order. */
  function RequestIds(requests: seq<Request>, status: RequestStatus, action: Action): (ids: seq<nat>)
    ensures forall k | 0 <= k < |ids| :: ids[k] < |requests|
  {
    if requests == [] then []
    else
      var n := |requests| - 1;
      var ids := RequestIds(requests[..n], status, action);
      if requests[n].status == status && requests[n].action == action then ids + [n] else ids
  }

  function TransferSize(transfers: seq<Transfer>): nat {
    if transfers == [] then 0
    else TransferSize(transfers[..|transfers| - 1]) + transfers[|transfers| - 1].size
  }

  /** The counters of a request grow with what was issued; it starts unless the budget was used up. */
  function Charged(q: Request, issued: seq<Transfer>, spent: bool): Request {
    q.(numTransfers := q.numTransfers + |issued|, size := q.size + TransferSize(issued),
       status := if spent then q.status else Started)
  }

  /** One submitted request: its record is moved within what is left of the budget. */
  function SubmitStep(c: Config, cs: CatState, action: Action, id: nat, budget: int, submitted: nat, env: Env):
    (result: (CatState, nat))
    requires id < |cs.store.requests|
    ensures |result.0.store.requests| == |cs.store.requests|
  {
    var q := cs.store.requests[id];
    var (cs', issued) := RecordMoved(c.locations, cs, q.record, 0, action, SERVICE_OPTIONS, env, budget - submitted, q.file);
    var submitted' := submitted + |issued|;
    var requests := cs'.store.requests[id := Charged(q, issued, budget == submitted')];
    (cs'.(store := cs'.store.(requests := requests)), submitted')
  }

  function SubmitLoop(c: Config, cs: CatState, action: Action, ids: seq<nat>, budget: int, submitted: nat,
                      envs: nat -> Env): (result: (CatState, nat))
    requires forall k | 0 <= k < |ids| :: ids[k] < |cs.store.requests|
    ensures |result.0.store.requests| == |cs.store.requests|
    decreases |ids|
  {
    if ids == [] then (cs, submitted)
    else
      var (cs', submitted') := SubmitStep(c, cs, action, ids[0], budget, submitted, envs(ids[0]));
      if budget - submitted' <= 0 then (cs', submitted')
      else SubmitLoop(c, cs', action, ids[1..], budget, submitted', envs)
  }

  function CheckSubmittedAction(c: Config, cs: CatState, action: Action, envs: nat -> Env): CatState {
    var budget := Threshold(c, action) - CountActive(cs.store.transfers, action);
    if Threshold(c, action) == 0 || budget <= 0 then cs
    else SubmitLoop(c, cs, action, RequestIds(cs.store.requests, Submitted, action), budget, 0, envs).0
  }

  function SubmittedChecked(c: Config, s: Store, envs: (Action, nat) -> Env): Store {
    var cs1 := CheckSubmittedAction(c, CatState(s, []), Stage, (id: nat) => envs(Stage, id));
    CheckSubmittedAction(c, cs1, Archive, (id: nat) => envs(Archive, id)).store
  }

  /** Every file of the indices has a cold copy, as far as the record knows. Direct files are not looked at. */
  predicate IndicesArchived(record: Record) {
    forall i, k | 0 <= i < |record.indices| && 0 <= k < |record.indices[i].files| ::
      record.indices[i].files[k].tags.cold.Some?
  }

  /** Every request names an existing record, as its foreign key demands. */
  predicate Resolved(s: Store) {
    forall k | 0 <= k < |s.requests| :: s.requests[k].record in s.records
  }

  function RunningStep(s: Store, action: Action, id: nat): (s': Store)
    requires id < |s.requests|
    ensures |s'.requests| == |s.requests|
    ensures Resolved(s) ==> Resolved(s')
  {
    var r := s.requests[id].record;
    if r !in s.records then s
    else
      var counted := s.requests[id].(numFailed := CountFailed(s.transfers, r));
      var s0 := s.(requests := s.requests[id := counted]);
      var done := counted.(status := Completed);
      match action
      case Stage =>
        if s.records[r].availability == Online then s0.(requests := s.requests[id := done])
        else
          var s1 := SaveAvailability(s0, r);
          if s1.records[r].availability == Requested then s1 else s1.(requests := s.requests[id := done])
      case Archive =>
        if IndicesArchived(s.records[r]) then s0.(requests := s.requests[id := done]) else s0
      case ClearHot => s0.(requests := s.requests[id := done])
  }

  function RunningLoop(s: Store, action: Action, ids: seq<nat>): (s': Store)
    requires forall k | 0 <= k < |ids| :: ids[k] < |s.requests|
    ensures |s'.requests| == |s.requests|
    decreases |ids|
  {
    if ids == [] then s else RunningLoop(RunningStep(s, action, ids[0]), action, ids[1..])
  }

  function CheckRunningAction(s: Store, action: Action): Store {
    RunningLoop(s, action, RequestIds(s.requests, Started, action))
  }

  function RunningChecked(s: Store): Store {
    CheckRunningAction(CheckRunningAction(CheckRunningAction(s, Stage), Archive), ClearHot)
  }

  /** A list of the unfinished transfers, in whatever order the query returns them. */
  predicate Ongoing(s: Store, order: seq<nat>) {
    && (forall k | 0 <= k < |order| :: order[k] < |s.transfers| && !s.transfers[order[k]].finished)
    && (forall j, k | 0 <= j < k < |order| :: order[j] != order[k])
  }

  predicate Finishes(status: TransferStatus) {
    status.Done? || status.Failed? || status.NoStatus?
  }

  function TransferStep(cs: CatState, id: nat, status: TransferStatus): (cs': CatState)
    requires id < |cs.store.transfers|
    ensures |cs'.store.transfers| == |cs.store.transfers|
  {
    var t := cs.store.transfers[id];
    var t' := t.(status := status, finished := t.finished || Finishes(status));
    var cs1 := cs.(store := cs.store.(transfers := cs.store.transfers[id := t']));
    if status.Done? then CopyAdded(cs1, t.record, t.file, t.action, t.newFilename) else cs1
  }

  function TransferLoop(cs: CatState, order: seq<nat>, answers: nat -> TransferStatus): (cs': CatState)
    requires forall k | 0 <= k < |order| :: order[k] < |cs.store.transfers|
    ensures |cs'.store.transfers| == |cs.store.transfers|
    decreases |order|
  {
    if order == [] then cs
    else TransferLoop(TransferStep(cs, order[0], answers(order[0])), order[1..], answers)
  }

  function TransfersProcessed(s: Store, order: seq<nat>, answers: nat -> TransferStatus): Store
    requires Ongoing(s, order)
  {
    Reindexed(TransferLoop(CatState(s, []), order, answers)).store
  }

  // ---------- The services, working on the tables in place ----------

  class RequestService {
    const db: Database
    const config: Config

    constructor (db: Database, config: Config)
      ensures this.db == db && this.config == config
    {
      this.db := db;
      this.config := config;
    }

    method Stage(r: RecordId, file: string, emailValid: bool)
      requires r in db.records
      modifies db
      ensures db.View() == UserStage(old(db.View()), r, file, emailValid)
    {
      if !emailValid {
        return;
      }
      db.requests := db.requests + [Request(r, ColdTypes.Stage, file, Submitted, 0, 0, 0)];
      db.records := db.records[r := db.records[r].(availability := Requested)];
    }

    method ChargeRequest(id: nat, issued: seq<Transfer>, spent: bool)
      requires id < |db.requests|
      modifies db`requests
      ensures db.requests == old(db.requests)[id := Charged(old(db.requests)[id], issued, spent)]
    {
      var q := db.requests[id];
      q := q.(numTransfers := q.numTransfers + |issued|, size := q.size + TransferSize(issued));
      if !spent {
        q := q.(status := Started);
      }
      db.requests := db.requests[id := q];
    }

    /** One iteration of the loop over the submitted requests. */
    method SubmitOne(manager: ColdManager, action: Action, id: nat, budget: int, submitted: nat, env: Env)
      returns (submitted': nat)
      requires manager.catalog.db == db && manager.locations == config.locations
      requires id < |db.requests|
      modifies manager.catalog, db
      ensures manager.catalog.View() == SubmitStep(config, old(manager.catalog.View()), action, id, budget, submitted, env).0
      ensures submitted' == SubmitStep(config, old(manager.catalog.View()), action, id, budget, submitted, env).1
    {
      hide RecordMoved;
      var q := db.requests[id];
      var issued := manager.MoveRecord(q.record, 0, action, SERVICE_OPTIONS, env, budget - submitted, q.file);
      submitted' := submitted + |issued|;
      ChargeRequest(id, issued, budget == submitted');
    }

    /** The loop over the submitted requests, which stops once the budget is spent. */
    method SubmitAll(manager: ColdManager, action: Action, ids: seq<nat>, budget: int, envs: nat -> Env)
      requires manager.catalog.db == db && manager.locations == config.locations
      requires forall k | 0 <= k < |ids| :: ids[k] < |db.requests|
      modifies manager.catalog, db
      ensures manager.catalog.View() == SubmitLoop(config, old(manager.catalog.View()), action, ids, budget, 0, envs).0
    {
      hide SubmitStep;
      ghost var cs := manager.catalog.View();
      ghost var whole := SubmitLoop(config, cs, action, ids, budget, 0, envs);
      var submitted, i := 0, 0;
      while i < |ids|
        invariant i <= |ids| && |cs.store.requests| == old(|db.requests|)
        invariant cs == manager.catalog.View()
        invariant SubmitLoop(config, cs, action, ids[i..], budget, submitted, envs) == whole
      {
        assert ids[i..][1..] == ids[i + 1..];
        submitted := SubmitOne(manager, action, ids[i], budget, submitted, envs(ids[i]));
        cs := manager.catalog.View();
        i := i + 1;
        if budget - submitted <= 0 {
          break;
        }
      }
    }

    method CheckSubmittedFor(manager: ColdManager, action: Action, envs: nat -> Env)
      requires manager.catalog.db == db && manager.locations == config.locations
      modifies manager.catalog, db
      ensures manager.catalog.View() == CheckSubmittedAction(config, old(manager.catalog.View()), action, envs)
    {
      hide SubmitLoop;
      var active := CountActive(db.transfers, action);
      var threshold := Threshold(config, action);
      var budget := threshold - active;
      if threshold == 0 || budget <= 0 {
        return;
      }
      var ids := RequestIds(db.requests, Submitted, action);
      SubmitAll(manager, action, ids, budget, envs);
    }

    method CheckSubmitted(envs: (Action, nat) -> Env)
      modifies db
      ensures db.View() == SubmittedChecked(config, old(db.View()), envs)
    {
      var catalog := new CatalogApi(db);
      var manager := new ColdManager(catalog, config.locations);
      CheckSubmittedFor(manager, ColdTypes.Stage, (id: nat) => envs(ColdTypes.Stage, id));
      CheckSubmittedFor(manager, Archive, (id: nat) => envs(Archive, id));
      CheckSubmittedFor(manager, ClearHot, (id: nat) => envs(ClearHot, id));
    }

    method CheckOne(action: Action, id: nat)
      requires id < |db.requests| && db.requests[id].record in db.records
      modifies db
      ensures db.View() == RunningStep(old(db.View()), action, id)
    {
      var r := db.requests[id].record;
      db.requests := db.requests[id := db.requests[id].(numFailed := CountFailed(db.transfers, r))];
      match action {
        case Stage =>
          if db.records[r].availability != Online {
            var catalog := new CatalogApi(db);
            catalog.SaveRecordAvailability(r);
            if db.records[r].availability == Requested {
              return;
            }
          }
        case Archive =>
          if !IndicesArchived(db.records[r]) {
            return;
          }
        case ClearHot =>
      }
      db.requests := db.requests[id := db.requests[id].(status := Completed)];
    }

    method CheckRunning()
      requires Resolved(db.View())
      modifies db
      ensures db.View() == RunningChecked(old(db.View()))
    {
      CheckRunningFor(ColdTypes.Stage);
      CheckRunningFor(Archive);
      CheckRunningFor(ClearHot);
    }

    method CheckRunningFor(action: Action)
      requires Resolved(db.View())
      modifies db
      ensures db.View() == CheckRunningAction(old(db.View()), action)
      ensures Resolved(db.View())
    {
      hide RunningStep;
      var ids := RequestIds(db.requests, Started, action);
      ghost var whole := RunningLoop(db.View(), action, ids);
      ghost var s := db.View();
      for i := 0 to |ids|
        invariant s == db.View() && |s.requests| == old(|db.requests|)
        invariant Resolved(s)
        invariant RunningLoop(s, action, ids[i..]) == whole
      {
        assert ids[i..][1..] == ids[i + 1..];
        CheckOne(action, ids[i]);
        s := RunningStep(s, action, ids[i]);
      }
    }
  }

  class TransferService {
    const db: Database

    constructor (db: Database)
      ensures this.db == db
    {
      this.db := db;
    }

    method ProcessOne(catalog: CatalogApi, id: nat, status: TransferStatus)
      requires catalog.db == db && id < |db.transfers|
      modifies catalog, db
      ensures catalog.View() == TransferStep(old(catalog.View()), id, status)
    {
      var t := db.transfers[id].(status := status);
      if status.Done? {
        t := t.(finished := true);
        catalog.AddCopy(t.record, t.file, t.action, t.newFilename);
      }
      if status.Failed? || status.NoStatus? {
        t := t.(finished := true);
      }
      db.transfers := db.transfers[id := t];
    }

    method ProcessTransfers(order: seq<nat>, answers: nat -> TransferStatus)
      requires Ongoing(db.View(), order)
      modifies db
      ensures db.View() == TransfersProcessed(old(db.View()), order, answers)
    {
      var catalog := new CatalogApi(db);
      for i := 0 to |order|
        invariant catalog.db == db && |db.transfers| == old(|db.transfers|)
        invariant TransferLoop(catalog.View(), order[i..], answers)
               == TransferLoop(CatState(old(db.View()), []), order, answers)
      {
        assert order[i..][1..] == order[i + 1..];
        ProcessOne(catalog, order[i], answers(order[i]));
      }
      catalog.ReindexEntries();
    }
  }
}
