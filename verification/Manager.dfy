/** The manager: decides file by file on the cached tags, and stops early on a budget. */
module Manager {
  import opened Options
  import opened ColdTypes
  import opened ColdModel
  import opened Locations
  import opened Catalog

  datatype MoveStatus = AlreadyThere | Scheduled | Errored | Registered | ToRegister | DryRun | Created

  datatype MoveOptions = MoveOptions(register: bool, force: bool, dry: bool)

  /** The answers of the storage during one operation: which URLs hold a verified copy, and
      for which files a transfer is accepted. */
  datatype Env = Env(verified: string -> bool, accepts: FileId -> bool)

  /** The transfers issued, whether some file was registered, and how many files were visited. */
  datatype MoveRun = MoveRun(cs: CatState, issued: seq<Transfer>, registered: bool, visited: nat)

  datatype ClearResult = NoRecord | NotCleared | Cleared

  // ---------- Specification functions ----------

  predicate IsQos(f: CachedFile, action: Action) {
    if action.Archive? then f.tags.cold.Some? else !f.tags.hotDeleted
  }

  /** The URL the copy is made from. A file to stage without a cold URL is a lookup error in the
      source; by ColdPreservation.SourceKnown it never happens. */
  function Source(f: CachedFile, action: Action): Option<string> {
    if action.Stage? then f.tags.cold else Some(f.row.uri)
  }

  function Destination(locations: seq<Location>, f: CachedFile, action: Action): Option<string> {
    match Source(f, action)
    case None => None
    case Some(url) =>
      var dest := FindUrl(locations, action, url);
      if dest == Some("") then None else dest
  }

  function NewTransfer(r: RecordId, f: CachedFile, action: Action, dest: string): Transfer {
    Transfer(action, dest, r, f.row.id, f.row.size, NoStatus, false)
  }

  function MoveFile(locations: seq<Location>, cs: CatState, r: RecordId, f: CachedFile, action: Action,
                    o: MoveOptions, env: Env): (MoveStatus, CatState)
  {
    if IsQos(f, action) then (AlreadyThere, cs)
    else if IsScheduled(cs.store, f.row.id, action) then (Scheduled, cs)
    else
      match Destination(locations, f, action)
      case None => (Errored, cs)
      case Some(dest) =>
        if !o.force && env.verified(dest) then
          if o.register then (Registered, CopyAdded(cs, r, f.row.id, action, dest)) else (ToRegister, cs)
        else if o.dry then (DryRun, cs)
        else if !env.accepts(f.row.id) then (Errored, cs)
        else (Created, cs.(store := cs.store.(transfers := cs.store.transfers + [NewTransfer(r, f, action, dest)])))
  }

  /** One visit of the loop: the file is moved and the counters are updated. */
  function MoveStep(locations: seq<Location>, run: MoveRun, r: RecordId, f: CachedFile, action: Action,
                    o: MoveOptions, env: Env): MoveRun
  {
    var (status, cs) := MoveFile(locations, run.cs, r, f, action, o, env);
    var issued := if status.Created? then run.issued + [cs.store.transfers[|cs.store.transfers| - 1]] else run.issued;
    MoveRun(cs, issued, run.registered || status.Registered?, run.visited + 1)
  }

  /** A budget of zero is no budget. */
  predicate Exhausted(run: MoveRun, budget: int) {
    budget != 0 && |run.issued| >= budget
  }

  function MoveFiles(locations: seq<Location>, run: MoveRun, r: RecordId, files: seq<CachedFile>, action: Action,
                     o: MoveOptions, env: Env, budget: int): (result: MoveRun)
    ensures result.cs.store == run.cs.store.(tags := result.cs.store.tags, transfers := result.cs.store.transfers)
    decreases |files|
  {
    if files == [] then run
    else
      var run' := MoveStep(locations, run, r, files[0], action, o, env);
      if Exhausted(run', budget) then run'
      else MoveFiles(locations, run', r, files[1..], action, o, env, budget)
  }

  function MoveRecordRun(locations: seq<Location>, cs: CatState, r: RecordId, limit: int, action: Action,
                         o: MoveOptions, env: Env, budget: int, file: string): MoveRun
    requires r in cs.store.records
  {
    MoveFiles(locations, MoveRun(cs, [], false, 0), r, SelectFiles(cs.store.records[r], limit, file), action, o, env, budget)
  }

  function RecordMoved(locations: seq<Location>, cs: CatState, r: RecordId, limit: int, action: Action,
                      o: MoveOptions, env: Env, budget: int, file: string): (result: (CatState, seq<Transfer>))
    ensures var s := result.0.store;
            && s == cs.store.(tags := s.tags, records := s.records, transfers := s.transfers)
            && s.records.Keys == cs.store.records.Keys
  {
    if r !in cs.store.records then (cs, [])
    else
      var run := MoveRecordRun(locations, cs, r, limit, action, o, env, budget, file);
      (if run.registered then Reindexed(run.cs) else run.cs, run.issued)
  }

  function RemoveHot(s: Store, url: string, dry: bool, removable: string -> bool): Store {
    if !dry && removable(url) then s.(disk := s.disk - {url}) else s
  }

  /** The loop of clear_hot: the state, whether the last marked file was cleared, and whether it gave up. */
  function ClearFiles(cs: CatState, r: RecordId, files: seq<CachedFile>, force: bool, dry: bool,
                      removable: string -> bool, cleared: bool): (CatState, bool, bool)
    decreases |files|
  {
    if files == [] then (cs, cleared, false)
    else if !IsQos(files[0], Archive) || !IsQos(files[0], Stage) then
      ClearFiles(cs, r, files[1..], force, dry, removable, cleared)
    else
      var cs0 := cs.(store := RemoveHot(cs.store, files[0].row.uri, dry, removable));
      var (ok, cs1) := MarkHotDeleted(cs0, r, files[0].row.id, force);
      if !ok then (cs1, false, true)
      else ClearFiles(cs1, r, files[1..], force, dry, removable, true)
  }

  function RecordCleared(cs: CatState, r: RecordId, limit: int, force: bool, dry: bool,
                       removable: string -> bool, file: string): (CatState, ClearResult)
  {
    if r !in cs.store.records then (cs, NoRecord)
    else
      var (cs', cleared, _) := ClearFiles(cs, r, SelectFiles(cs.store.records[r], limit, file), force, dry, removable, false);
      if cleared then (Reindexed(cs'), Cleared) else (cs', NotCleared)
  }

  // ---------- The manager, working on the tables in place ----------

  class ColdManager {
    const catalog: CatalogApi
    const locations: seq<Location>

    constructor (catalog: CatalogApi, locations: seq<Location>)
      ensures this.catalog == catalog && this.locations == locations
    {
      this.catalog := catalog;
      this.locations := locations;
    }

    method MoveRecordFile(r: RecordId, f: CachedFile, action: Action, o: MoveOptions, env: Env)
      returns (status: MoveStatus)
      modifies catalog, catalog.db
      ensures (status, catalog.View()) == MoveFile(locations, old(catalog.View()), r, f, action, o, env)
    {
      if IsQos(f, action) {
        return AlreadyThere;
      }
      if IsScheduled(catalog.db.View(), f.row.id, action) {
        return Scheduled;
      }
      var dest := Destination(locations, f, action);
      if dest.None? {
        return Errored;
      }
      if !o.force && env.verified(dest.value) {
        if o.register {
          catalog.AddCopy(r, f.row.id, action, dest.value);
          return Registered;
        }
        return ToRegister;
      }
      if o.dry {
        return DryRun;
      }
      if !env.accepts(f.row.id) {
        return Errored;
      }
      catalog.db.transfers := catalog.db.transfers + [NewTransfer(r, f, action, dest.value)];
      return Created;
    }

    /** One iteration of the loop of MoveRecord. */
    method MoveNext(r: RecordId, f: CachedFile, action: Action, o: MoveOptions, env: Env,
                    issued: seq<Transfer>, registered: bool, visited: nat)
      returns (issued': seq<Transfer>, registered': bool)
      modifies catalog, catalog.db
      ensures MoveRun(catalog.View(), issued', registered', visited + 1)
           == MoveStep(locations, MoveRun(old(catalog.View()), issued, registered, visited), r, f, action, o, env)
    {
      var status := MoveRecordFile(r, f, action, o, env);
      issued', registered' := issued, registered || status.Registered?;
      if status.Created? {
        issued' := issued + [catalog.db.transfers[|catalog.db.transfers| - 1]];
      }
    }

    method MoveSelected(r: RecordId, files: seq<CachedFile>, action: Action, o: MoveOptions, env: Env, budget: int)
      returns (issued: seq<Transfer>, registered: bool)
      modifies catalog, catalog.db
      ensures var run := MoveFiles(locations, MoveRun(old(catalog.View()), [], false, 0), r, files, action, o, env, budget);
              catalog.View() == run.cs && issued == run.issued && registered == run.registered
    {
      hide MoveStep;
      issued, registered := [], false;
      ghost var whole := MoveFiles(locations, MoveRun(catalog.View(), [], false, 0), r, files, action, o, env, budget);
      ghost var run := MoveRun(catalog.View(), [], false, 0);
      var i := 0;
      while i < |files|
        invariant i <= |files| && run == MoveRun(catalog.View(), issued, registered, i)
        invariant MoveFiles(locations, run, r, files[i..], action, o, env, budget) == whole
      {
        assert files[i..][1..] == files[i + 1..];
        issued, registered := MoveNext(r, files[i], action, o, env, issued, registered, i);
        i := i + 1;
        run := MoveRun(catalog.View(), issued, registered, i);
        if budget != 0 && |issued| >= budget {
          break;
        }
      }
    }

    method MoveRecord(r: RecordId, limit: int, action: Action, o: MoveOptions, env: Env, budget: int, file: string)
      returns (issued: seq<Transfer>)
      modifies catalog, catalog.db
      ensures (catalog.View(), issued)
           == RecordMoved(locations, old(catalog.View()), r, limit, action, o, env, budget, file)
    {
      hide MoveFiles, Reindexed;
      if r !in catalog.db.records {
        return [];
      }
      var registered;
      issued, registered := MoveSelected(r, SelectFiles(catalog.db.records[r], limit, file), action, o, env, budget);
      if registered {
        catalog.ReindexEntries();
      }
    }

    method ClearHot(r: RecordId, limit: int, force: bool, dry: bool, removable: string -> bool, file: string)
      returns (result: ClearResult)
      modifies catalog, catalog.db
      ensures (catalog.View(), result) == RecordCleared(old(catalog.View()), r, limit, force, dry, removable, file)
    {
      var cleared := false;
      if r !in catalog.db.records {
        return NoRecord;
      }
      var files := SelectFiles(catalog.db.records[r], limit, file);
      ghost var whole := ClearFiles(catalog.View(), r, files, force, dry, removable, false);
      for i := 0 to |files|
        invariant ClearFiles(catalog.View(), r, files[i..], force, dry, removable, cleared) == whole
      {
        assert files[i..][1..] == files[i + 1..];
        if !IsQos(files[i], Archive) || !IsQos(files[i], Stage) {
          continue;
        }
        if !dry && removable(files[i].row.uri) {
          catalog.db.disk := catalog.db.disk - {files[i].row.uri};
        }
        cleared := catalog.ClearHot(r, files[i].row.id, force);
        if !cleared {
          return NotCleared;
        }
      }
      if !cleared {
        return NotCleared;
      }
      catalog.ReindexEntries();
      return Cleared;
    }
  }
}
