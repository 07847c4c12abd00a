/** What an archive or stage operation does, exactly, file by file; what every transfer in the table is; and the counters
    of the scheduler. */
module ColdMove {
  import opened Arithmetic
  import opened Options
  import opened ColdTypes
  import opened ColdModel
  import opened Locations
  import opened Catalog
  import opened Manager
  import opened Service
  import opened ColdInvariant
  import opened ColdPreservation
  import opened ColdRuns
  import opened ColdBudget
  import opened ColdExact

  // ---------- Selection ----------

  /** A name selects the indices with that key, and no name selects all indices and the direct files. */
  lemma {:induction false} IndexFilesHave(indices: seq<CachedIndex>, name: string, f: CachedFile)
    ensures f in IndexFiles(indices, name) <==>
      exists i :: 0 <= i < |indices| && (name == "" || indices[i].key == name) && f in indices[i].files
  {
    if indices != [] {
      var rest := indices[1..];
      IndexFilesHave(rest, name, f);
      if i :| 0 <= i < |indices| && (name == "" || indices[i].key == name) && f in indices[i].files {
        assert i > 0 ==> rest[i - 1] == indices[i];
      }
      if i :| 0 <= i < |rest| && (name == "" || rest[i].key == name) && f in rest[i].files {
        assert indices[i + 1] == rest[i];
      }
    }
  }

  /** Without a limit every named file is selected; a positive limit keeps the first ones, a negative one drops as many. */
  lemma SelectExact(record: Record, limit: int, name: string, f: CachedFile)
    ensures f in SelectFiles(record, 0, name) <==>
              || (name == "" && f in record.files)
              || exists i :: 0 <= i < |record.indices| && (name == "" || record.indices[i].key == name) && f in record.indices[i].files
    ensures var all := SelectFiles(record, 0, name);
            SelectFiles(record, limit, name)
            == all[if limit < 0 then Min(-limit, |all|) else 0..if limit > 0 then Min(limit, |all|) else |all|]
  {
    IndexFilesHave(record.indices, name, f);
  }

  // ---------- One file ----------

  /** The file is not yet where the action wants it, and no transfer is on its way. */
  ghost predicate Needed(s: Store, f: CachedFile, action: Action) {
    && (if action == Archive then f.tags.cold == None else f.tags.hotDeleted)
    && !exists t :: t in s.transfers && t.file == f.row.id && t.action == action && !t.finished
  }

  /** Archiving copies from the file's own URL and staging from its cold URL; the locations give the other one. */
  ghost predicate GoesTo(c: seq<Location>, f: CachedFile, action: Action, url: string) {
    var from := if action == Stage then f.tags.cold else Some(f.row.uri);
    from.Some? && url != "" && FindUrl(c, action, from.value) == Some(url)
  }

  /** A transfer to that URL is issued: it is needed, forced or not yet there, no dry run, and accepted. */
  ghost predicate Issues(s: Store, f: CachedFile, action: Action, o: MoveOptions, env: Env, url: string) {
    Needed(s, f, action) && (o.force || !env.verified(url)) && !o.dry && env.accepts(f.row.id)
  }

  /** The copy that is already at that URL is registered, even in a dry run. */
  ghost predicate Registers(s: Store, f: CachedFile, action: Action, o: MoveOptions, env: Env, url: string) {
    Needed(s, f, action) && !o.force && env.verified(url) && o.register
  }

  /** The row of a new transfer. */
  function Row(r: RecordId, f: CachedFile, action: Action, url: string): Transfer {
    Transfer(action, url, r, f.row.id, f.row.size, NoStatus, false)
  }

  /** The tags of a file of which a copy was registered. */
  function WithCopy(tags: Tags, action: Action, url: string): Tags {
    if action == Archive then Tags(Some(url), tags.hotDeleted) else Tags(tags.cold, false)
  }

  lemma DestinationExact(c: seq<Location>, f: CachedFile, action: Action, url: string)
    ensures Destination(c, f, action) == Some(url) <==> GoesTo(c, f, action, url)
  {
  }

  lemma NeededExact(s: Store, f: CachedFile, action: Action)
    requires action != ClearHot
    ensures Needed(s, f, action) <==> !IsQos(f, action) && !IsScheduled(s, f.row.id, action)
  {
    if IsScheduled(s, f.row.id, action) {
      var i :| 0 <= i < |s.transfers| && s.transfers[i].file == f.row.id && s.transfers[i].action == action && !s.transfers[i].finished;
      assert s.transfers[i] in s.transfers;
    }
  }

  /** The rows that one file adds, and its tags afterwards. */
  function Added(c: seq<Location>, s: Store, r: RecordId, f: CachedFile, action: Action, o: MoveOptions, env: Env): seq<Transfer> {
    match Destination(c, f, action)
    case None => []
    case Some(url) =>
      if !IsQos(f, action) && !IsScheduled(s, f.row.id, action) && (o.force || !env.verified(url)) && !o.dry
         && env.accepts(f.row.id)
      then [Row(r, f, action, url)] else []
  }

  function Retagged(c: seq<Location>, s: Store, f: CachedFile, action: Action, o: MoveOptions, env: Env): Tags {
    match Destination(c, f, action)
    case None => TagsOf(s.tags, f.row.id)
    case Some(url) =>
      if !IsQos(f, action) && !IsScheduled(s, f.row.id, action) && !o.force && env.verified(url) && o.register
      then WithCopy(TagsOf(s.tags, f.row.id), action, url) else TagsOf(s.tags, f.row.id)
  }

  lemma MoveFileExact(c: seq<Location>, cs: CatState, r: RecordId, f: CachedFile, action: Action, o: MoveOptions, env: Env)
    requires action != ClearHot && f.row.id in cs.store.tags
    ensures var (status, cs') := MoveFile(c, cs, r, f, action, o, env);
            && cs'.store.transfers == cs.store.transfers + Added(c, cs.store, r, f, action, o, env)
            && (status.Created? <==> Added(c, cs.store, r, f, action, o, env) != [])
            && cs'.store.tags.Keys == cs.store.tags.Keys
            && TagsOf(cs'.store.tags, f.row.id) == Retagged(c, cs.store, f, action, o, env)
            && (forall id | id != f.row.id :: TagsOf(cs'.store.tags, id) == TagsOf(cs.store.tags, id))
  {
    hide IsScheduled, Destination, IsQos;
    assert cs.store.transfers + [] == cs.store.transfers;
  }

  /** The answer for one file, in the order of the ladder: it is there, on its way, without destination or not accepted, found
      at the destination (to be registered or only noticed), passed over in a dry run, or a transfer is created. */
  lemma MoveFileSays(c: seq<Location>, cs: CatState, r: RecordId, f: CachedFile, action: Action, o: MoveOptions, env: Env,
                     url: string)
    requires action != ClearHot
    ensures var s, (status, _) := cs.store, MoveFile(c, cs, r, f, action, o, env);
            var there := if action == Archive then f.tags.cold != None else !f.tags.hotDeleted;
            && (status == AlreadyThere <==> there)
            && (status == Scheduled <==> !there && !Needed(s, f, action))
            && (Needed(s, f, action) && (forall u :: !GoesTo(c, f, action, u)) ==> status == Errored)
            && (Needed(s, f, action) && GoesTo(c, f, action, url) ==>
                  && (status == Registered <==> Registers(s, f, action, o, env, url))
                  && (status == ToRegister <==> !o.force && env.verified(url) && !o.register)
                  && (status == DryRun <==> (o.force || !env.verified(url)) && o.dry)
                  && (status == Created <==> Issues(s, f, action, o, env, url))
                  && (status == Errored <==> (o.force || !env.verified(url)) && !o.dry && !env.accepts(f.row.id)))
  {
    NeededExact(cs.store, f, action);
    DestinationExact(c, f, action, url);
    if Destination(c, f, action).Some? {
      DestinationExact(c, f, action, Destination(c, f, action).value);
    }
    hide Needed, GoesTo, Destination, IsScheduled, CopyAdded;
  }

  // ---------- All selected files ----------

  function AllAdded(c: seq<Location>, s: Store, r: RecordId, files: seq<CachedFile>, action: Action, o: MoveOptions, env: Env):
    seq<Transfer>
  {
    if files == [] then []
    else Added(c, s, r, files[0], action, o, env) + AllAdded(c, s, r, files[1..], action, o, env)
  }

  /** Files with different numbers, all in the tag table. */
  ghost predicate Apart(files: seq<CachedFile>, tags: map<FileId, Tags>) {
    && (forall k | 0 <= k < |files| :: files[k].row.id in tags)
    && (forall j, k | 0 <= j < k < |files| :: files[j].row.id != files[k].row.id)
  }

  /** What happens to one file does not depend on the others. */
  lemma OtherFile(c: seq<Location>, s: Store, s': Store, r: RecordId, f: CachedFile, g: CachedFile, action: Action,
                  o: MoveOptions, env: Env)
    requires g.row.id != f.row.id && TagsOf(s'.tags, g.row.id) == TagsOf(s.tags, g.row.id)
    requires s'.transfers == s.transfers + Added(c, s, r, f, action, o, env)
    ensures Added(c, s', r, g, action, o, env) == Added(c, s, r, g, action, o, env)
    ensures Retagged(c, s', g, action, o, env) == Retagged(c, s, g, action, o, env)
  {
    hide Destination, IsQos;
    if IsScheduled(s, g.row.id, action) {
      var i :| 0 <= i < |s.transfers| && s.transfers[i].file == g.row.id && s.transfers[i].action == action && !s.transfers[i].finished;
      assert s'.transfers[i].file == g.row.id;
    }
    if IsScheduled(s', g.row.id, action) {
      var i :| 0 <= i < |s'.transfers| && s'.transfers[i].file == g.row.id && s'.transfers[i].action == action && !s'.transfers[i].finished;
      assert i < |s.transfers| ==> s.transfers[i].file == g.row.id;
    }
    hide IsScheduled;
  }

  lemma {:induction false} OtherFiles(c: seq<Location>, s: Store, s': Store, r: RecordId, f: CachedFile, files: seq<CachedFile>,
                                      action: Action, o: MoveOptions, env: Env)
    requires forall k | 0 <= k < |files| ::
               files[k].row.id != f.row.id && TagsOf(s'.tags, files[k].row.id) == TagsOf(s.tags, files[k].row.id)
    requires s'.transfers == s.transfers + Added(c, s, r, f, action, o, env)
    ensures AllAdded(c, s', r, files, action, o, env) == AllAdded(c, s, r, files, action, o, env)
  {
    hide Added, TagsOf, Retagged;
    if files != [] {
      OtherFile(c, s, s', r, f, files[0], action, o, env);
      OtherFiles(c, s, s', r, f, files[1..], action, o, env);
    }
  }

  lemma MoveStepExact(c: seq<Location>, run: MoveRun, r: RecordId, f: CachedFile, action: Action, o: MoveOptions, env: Env)
    requires action != ClearHot && f.row.id in run.cs.store.tags
    ensures var next := MoveStep(c, run, r, f, action, o, env);
            var s, s' := run.cs.store, next.cs.store;
            && s'.transfers == s.transfers + Added(c, s, r, f, action, o, env)
            && next.issued == run.issued + Added(c, s, r, f, action, o, env)
            && next.visited == run.visited + 1
            && s'.tags.Keys == s.tags.Keys
            && TagsOf(s'.tags, f.row.id) == Retagged(c, s, f, action, o, env)
            && (forall id | id != f.row.id :: TagsOf(s'.tags, id) == TagsOf(s.tags, id))
  {
    MoveFileExact(c, run.cs, r, f, action, o, env);
    hide MoveFile, Retagged, TagsOf, IsQos, IsScheduled, Destination;
    assert run.issued + [] == run.issued;
  }

  /** The first n files, as many as were visited, decide the new rows; tags change for them only. */
  ghost predicate Moved(c: seq<Location>, s: Store, r: RecordId, files: seq<CachedFile>, action: Action, o: MoveOptions, env: Env,
                        n: nat, issued: seq<Transfer>, s': Store)
    requires n <= |files|
  {
    && issued == AllAdded(c, s, r, files[..n], action, o, env)
    && s'.transfers == s.transfers + issued
    && (forall k | 0 <= k < n :: TagsOf(s'.tags, files[k].row.id) == Retagged(c, s, files[k], action, o, env))
    && (forall id | (forall k | 0 <= k < n :: files[k].row.id != id) :: TagsOf(s'.tags, id) == TagsOf(s.tags, id))
  }

  lemma MovedMore(c: seq<Location>, s: Store, s1: Store, r: RecordId, files: seq<CachedFile>, action: Action, o: MoveOptions,
                  env: Env, n: nat, issued: seq<Transfer>, s2: Store)
    requires files != [] && Apart(files, s.tags) && 1 <= n <= |files|
    requires s1.transfers == s.transfers + Added(c, s, r, files[0], action, o, env)
    requires TagsOf(s1.tags, files[0].row.id) == Retagged(c, s, files[0], action, o, env)
    requires forall id | id != files[0].row.id :: TagsOf(s1.tags, id) == TagsOf(s.tags, id)
    requires Moved(c, s1, r, files[1..], action, o, env, n - 1, issued, s2)
    ensures Moved(c, s, r, files, action, o, env, n, Added(c, s, r, files[0], action, o, env) + issued, s2)
  {
    hide Added, Retagged, TagsOf;
    var f, rest := files[0], files[1..];
    assert files[..n][0] == f && files[..n][1..] == rest[..n - 1];
    OtherFiles(c, s, s1, r, f, rest[..n - 1], action, o, env);
    forall k | 0 <= k < n ensures TagsOf(s2.tags, files[k].row.id) == Retagged(c, s, files[k], action, o, env) {
      if k > 0 {
        assert rest[k - 1] == files[k];
        OtherFile(c, s, s1, r, f, files[k], action, o, env);
      } else {
        assert forall j | 0 <= j < n - 1 :: rest[j].row.id != f.row.id;
      }
    }
    forall id | (forall k | 0 <= k < n :: files[k].row.id != id) ensures TagsOf(s2.tags, id) == TagsOf(s.tags, id) {
      assert forall k | 0 <= k < n - 1 :: rest[k] == files[k + 1];
      assert id != files[0].row.id;
    }
  }

  lemma {:induction false} MoveFilesExact(c: seq<Location>, run: MoveRun, r: RecordId, files: seq<CachedFile>, action: Action,
                                          o: MoveOptions, env: Env, budget: int) returns (n: nat, added: seq<Transfer>)
    requires action != ClearHot && Apart(files, run.cs.store.tags)
    ensures var end := MoveFiles(c, run, r, files, action, o, env, budget);
            && n <= |files| && end.visited == run.visited + n && (n == |files| || Exhausted(end, budget))
            && end.issued == run.issued + added
            && Moved(c, run.cs.store, r, files, action, o, env, n, added, end.cs.store)
    decreases |files|
  {
    hide MoveStep, Moved, Added, Retagged;
    n, added := 0, [];
    if files == [] {
      assert Moved(c, run.cs.store, r, files, action, o, env, 0, [], run.cs.store) by {
        NothingMoved(c, run.cs.store, r, files, action, o, env);
      }
    } else {
      var f, rest := files[0], files[1..];
      var next := MoveStep(c, run, r, f, action, o, env);
      MoveStepExact(c, run, r, f, action, o, env);
      if Exhausted(next, budget) {
        n := 1;
        NothingMoved(c, next.cs.store, r, rest, action, o, env);
      } else {
        assert Apart(rest, next.cs.store.tags) by {
          assert forall k | 0 <= k < |rest| :: rest[k] == files[k + 1];
        }
        n, added := MoveFilesExact(c, next, r, rest, action, o, env, budget);
        n := n + 1;
      }
      MovedMore(c, run.cs.store, next.cs.store, r, files, action, o, env, n, added,
                MoveFiles(c, run, r, files, action, o, env, budget).cs.store);
      added := Added(c, run.cs.store, r, f, action, o, env) + added;
    }
  }

  lemma NothingMoved(c: seq<Location>, s: Store, r: RecordId, files: seq<CachedFile>, action: Action, o: MoveOptions, env: Env)
    ensures Moved(c, s, r, files, action, o, env, 0, [], s)
  {
    assert s.transfers + [] == s.transfers;
  }

  lemma {:induction false} AddedBySome(c: seq<Location>, s: Store, r: RecordId, files: seq<CachedFile>, action: Action,
                                       o: MoveOptions, env: Env, t: Transfer)
    ensures t in AllAdded(c, s, r, files, action, o, env) <==> exists f :: f in files && t in Added(c, s, r, f, action, o, env)
  {
    hide Added;
    if files != [] {
      AddedBySome(c, s, r, files[1..], action, o, env, t);
      assert files == [files[0]] + files[1..];
    }
  }

  /** The one row of a file, in terms of where it goes. */
  lemma AddedExact(c: seq<Location>, s: Store, r: RecordId, f: CachedFile, action: Action, o: MoveOptions, env: Env, t: Transfer)
    requires action != ClearHot
    ensures t in Added(c, s, r, f, action, o, env) <==>
              GoesTo(c, f, action, t.newFilename) && Issues(s, f, action, o, env, t.newFilename)
              && t == Transfer(action, t.newFilename, r, f.row.id, f.row.size, NoStatus, false)
  {
    NeededExact(s, f, action);
    DestinationExact(c, f, action, t.newFilename);
    hide Needed, GoesTo, Destination, IsQos, IsScheduled;
  }

  lemma RetaggedExact(c: seq<Location>, s: Store, f: CachedFile, action: Action, o: MoveOptions, env: Env, url: string)
    requires action != ClearHot && GoesTo(c, f, action, url)
    ensures Retagged(c, s, f, action, o, env)
         == if Registers(s, f, action, o, env, url) then WithCopy(TagsOf(s.tags, f.row.id), action, url) else TagsOf(s.tags, f.row.id)
  {
    NeededExact(s, f, action);
    DestinationExact(c, f, action, url);
    hide Needed, GoesTo, Destination, IsQos, IsScheduled, TagsOf;
  }

  /** The files that an operation visits: all that it selects, or as many as it takes to use up its budget. */
  function Visited(c: seq<Location>, s: Store, r: RecordId, limit: int, action: Action, o: MoveOptions, env: Env, budget: int,
                   name: string): seq<CachedFile>
    requires r in s.records
  {
    var n, files := MoveRecordRun(c, CatState(s, []), r, limit, action, o, env, budget, name).visited, SelectFiles(s.records[r], limit, name);
    if n <= |files| then files[..n] else files
  }

  /** The visited files are all that are selected, unless the budget is used up; they decide what happens. */
  lemma MoveVisits(c: seq<Location>, s: Store, r: RecordId, limit: int, action: Action, o: MoveOptions, env: Env, budget: int,
                   name: string)
    requires Inv(s) && r in s.records && action != ClearHot
    ensures var (cs', issued) := RecordMoved(c, CatState(s, []), r, limit, action, o, env, budget, name);
            var s', files, visited := cs'.store, SelectFiles(s.records[r], limit, name), Visited(c, s, r, limit, action, o, env, budget, name);
            && visited <= files && (visited == files || (budget != 0 && |issued| >= budget))
            && s'.requests == s.requests && s'.disk == s.disk
            && Moved(c, s, r, files, action, o, env, |visited|, issued, s')
  {
    hide MoveFiles, SelectFiles, RefreshAll, Inv, AllAdded, Retagged;
    var files := SelectFiles(s.records[r], limit, name);
    SelectedApart(s, r, limit, name);
    var n, added := MoveFilesExact(c, MoveRun(CatState(s, []), [], false, 0), r, files, action, o, env, budget);
    assert [] + added == added;
    assert files[..n] <= files;
  }

  /** A transfer that the operation issues for the file, in full. */
  ghost predicate IssuedFor(c: seq<Location>, s: Store, r: RecordId, f: CachedFile, action: Action, o: MoveOptions, env: Env,
                            t: Transfer) {
    && GoesTo(c, f, action, t.newFilename) && Issues(s, f, action, o, env, t.newFilename)
    && t == Transfer(action, t.newFilename, r, f.row.id, f.row.size, NoStatus, false)
  }

  /** The rows added by an operation are exactly those of the visited files for which a transfer is issued. */
  lemma MoveIssuesExactly(c: seq<Location>, s: Store, r: RecordId, limit: int, action: Action, o: MoveOptions, env: Env,
                          budget: int, name: string, t: Transfer)
    requires Inv(s) && r in s.records && action != ClearHot
    ensures var (cs', issued) := RecordMoved(c, CatState(s, []), r, limit, action, o, env, budget, name);
            && cs'.store.transfers == s.transfers + issued
            && (t in issued <==>
                  exists f :: f in Visited(c, s, r, limit, action, o, env, budget, name) && IssuedFor(c, s, r, f, action, o, env, t))
  {
    hide RecordMoved, SelectFiles, Inv, Visited, Added, GoesTo, Issues, Retagged;
    MoveVisits(c, s, r, limit, action, o, env, budget, name);
    var visited := Visited(c, s, r, limit, action, o, env, budget, name);
    assert SelectFiles(s.records[r], limit, name)[..|visited|] == visited;
    AddedBySome(c, s, r, visited, action, o, env, t);
    forall f ensures t in Added(c, s, r, f, action, o, env) <==> IssuedFor(c, s, r, f, action, o, env, t) {
      AddedExact(c, s, r, f, action, o, env, t);
    }
  }

  /** The tags of a selected file change exactly if it is visited and a copy of it is registered. */
  lemma MoveRegistersExactly(c: seq<Location>, s: Store, r: RecordId, limit: int, action: Action, o: MoveOptions, env: Env,
                             budget: int, name: string, f: CachedFile, url: Option<string>)
    requires Inv(s) && r in s.records && action != ClearHot && f in SelectFiles(s.records[r], limit, name)
    requires forall u :: url == Some(u) <==> GoesTo(c, f, action, u)
    ensures var s' := RecordMoved(c, CatState(s, []), r, limit, action, o, env, budget, name).0.store;
            TagsOf(s'.tags, f.row.id)
            == if f in Visited(c, s, r, limit, action, o, env, budget, name) && url.Some? && Registers(s, f, action, o, env, url.value)
               then WithCopy(TagsOf(s.tags, f.row.id), action, url.value) else TagsOf(s.tags, f.row.id)
  {
    SelectedApart(s, r, limit, name);
    MoveVisits(c, s, r, limit, action, o, env, budget, name);
    hide RecordMoved, SelectFiles, Inv, Visited, GoesTo, Registers, Retagged, AllAdded, TagsOf, Holds, WithCopy;
    var files, visited := SelectFiles(s.records[r], limit, name), Visited(c, s, r, limit, action, o, env, budget, name);
    var k :| 0 <= k < |files| && files[k] == f;
    VisitedAt(files, visited, s.tags, k);
    if url.Some? {
      RetaggedExact(c, s, f, action, o, env, url.value);
    } else {
      NowhereToGo(c, s, f, action, o, env);
    }
  }

  lemma VisitedAt(files: seq<CachedFile>, visited: seq<CachedFile>, tags: map<FileId, Tags>, k: nat)
    requires visited <= files && Apart(files, tags) && k < |files|
    ensures files[k] in visited <==> k < |visited|
    ensures k >= |visited| ==> forall j | 0 <= j < |visited| :: files[j].row.id != files[k].row.id
  {
    assert forall j | 0 <= j < |visited| :: visited[j] == files[j];
  }

  lemma NowhereToGo(c: seq<Location>, s: Store, f: CachedFile, action: Action, o: MoveOptions, env: Env)
    requires forall u :: !GoesTo(c, f, action, u)
    ensures Retagged(c, s, f, action, o, env) == TagsOf(s.tags, f.row.id)
  {
    hide GoesTo, Destination, TagsOf;
    if Destination(c, f, action).Some? {
      DestinationExact(c, f, action, Destination(c, f, action).value);
    }
  }

  lemma SelectedApart(s: Store, r: RecordId, limit: int, name: string)
    requires Inv(s) && r in s.records
    ensures Apart(SelectFiles(s.records[r], limit, name), s.tags)
    ensures forall f | f in SelectFiles(s.records[r], limit, name) :: Holds(s.layout, r, f.row)
  {
    assert CacheSound(s, r);
    SelectionLists(s, r, limit, name);
    var files := SelectFiles(s.records[r], limit, name);
    hide SelectFiles, Agrees, Rows;
    forall f | f in files ensures Holds(s.layout, r, f.row) && f.row.id in s.tags {
      var k :| 0 <= k < |files| && files[k] == f;
    }
  }

  /** A dry run issues nothing, whatever it finds. */
  lemma {:induction false} DryRunIssuesNothing(c: seq<Location>, cs: CatState, r: RecordId, limit: int, action: Action,
                                               o: MoveOptions, env: Env, budget: int, name: string)
    requires o.dry
    ensures var (cs', issued) := RecordMoved(c, cs, r, limit, action, o, env, budget, name);
            issued == [] && cs'.store.transfers == cs.store.transfers
  {
    hide SelectFiles, RefreshAll;
    if r in cs.store.records {
      DryFiles(c, MoveRun(cs, [], false, 0), r, SelectFiles(cs.store.records[r], limit, name), action, o, env, budget);
    }
  }

  lemma {:induction false} DryFiles(c: seq<Location>, run: MoveRun, r: RecordId, files: seq<CachedFile>, action: Action,
                                    o: MoveOptions, env: Env, budget: int)
    requires o.dry
    ensures var end := MoveFiles(c, run, r, files, action, o, env, budget);
            end.issued == run.issued && end.cs.store.transfers == run.cs.store.transfers
    decreases |files|
  {
    hide IsScheduled, Destination, IsQos;
    if files != [] {
      DryFiles(c, MoveStep(c, run, r, files[0], action, o, env), r, files[1..], action, o, env, budget);
    }
  }

  // ---------- One request of a pass ----------

  /** What the service issues for a file: it is needed, nothing is found at its destination, and the transfer is accepted. */
  ghost predicate ServedBy(c: Config, s: Store, r: RecordId, f: CachedFile, action: Action, env: Env, t: Transfer) {
    && Needed(s, f, action) && GoesTo(c.locations, f, action, t.newFilename)
    && !env.verified(t.newFilename) && env.accepts(f.row.id)
    && t == Transfer(action, t.newFilename, r, f.row.id, f.row.size, NoStatus, false)
  }

  /** The files visited for a request. */
  function VisitedFor(c: Config, s: Store, k: nat, action: Action, env: Env, left: int): seq<CachedFile>
    requires k < |s.requests| && s.requests[k].record in s.records
  {
    Visited(c.locations, s, s.requests[k].record, 0, action, MoveOptions(true, false, false), env, left, s.requests[k].file)
  }

  /** Serving a submitted request: exactly the visited files that the service issues a transfer for get one. The request is
      charged for the new rows, and is started unless they use up the budget; no other request changes. */
  lemma ServedExactly(c: Config, s: Store, action: Action, k: nat, budget: int, submitted: nat, env: Env, t: Transfer)
    requires Inv(s) && k < |s.requests| && s.requests[k].record in s.records && action != ClearHot
    ensures var q, (cs', submitted') := s.requests[k], SubmitStep(c, CatState(s, []), action, k, budget, submitted, env);
            var s', issued := cs'.store, cs'.store.transfers[Min(|s.transfers|, |cs'.store.transfers|)..];
            && s'.transfers == s.transfers + issued && submitted' == submitted + |issued|
            && (t in issued <==> exists f :: f in VisitedFor(c, s, k, action, env, budget - submitted)
                                             && ServedBy(c, s, q.record, f, action, env, t))
            && s'.requests == s.requests[k := q.(numTransfers := q.numTransfers + |issued|, size := q.size + TransferSize(issued),
                                                 status := if submitted' == budget then q.status else Started)]
  {
    hide Inv, RecordMoved, Visited, Needed, GoesTo, TransferSize;
    var q, o := s.requests[k], MoveOptions(true, false, false);
    assert SERVICE_OPTIONS == o;
    var (moved, issued) := RecordMoved(c.locations, CatState(s, []), q.record, 0, action, o, env, budget - submitted, q.file);
    MoveIssuesExactly(c.locations, s, q.record, 0, action, o, env, budget - submitted, q.file, t);
    assert moved.store.requests == s.requests;
    assert moved.store.transfers[|s.transfers|..] == issued;
    forall f ensures IssuedFor(c.locations, s, q.record, f, action, o, env, t) <==> ServedBy(c, s, q.record, f, action, env, t) {
    }
    hide IssuedFor, ServedBy;
  }

  lemma OneDestination(c: seq<Location>, f: CachedFile, action: Action, url: string)
    requires GoesTo(c, f, action, url)
    ensures forall u :: Some(url) == Some(u) <==> GoesTo(c, f, action, u)
  {
  }

  /** The files of the request that are visited, and found at their destination, are registered there. */
  lemma ServedRegisters(c: Config, s: Store, action: Action, k: nat, budget: int, submitted: nat, env: Env, f: CachedFile,
                        url: string)
    requires Inv(s) && k < |s.requests| && s.requests[k].record in s.records && action != ClearHot
    requires f in SelectFiles(s.records[s.requests[k].record], 0, s.requests[k].file) && GoesTo(c.locations, f, action, url)
    ensures var s' := SubmitStep(c, CatState(s, []), action, k, budget, submitted, env).0.store;
            TagsOf(s'.tags, f.row.id)
            == if f in VisitedFor(c, s, k, action, env, budget - submitted) && Needed(s, f, action) && env.verified(url)
               then WithCopy(TagsOf(s.tags, f.row.id), action, url) else TagsOf(s.tags, f.row.id)
  {
    hide Inv, RecordMoved, Visited, SelectFiles, Needed, GoesTo, TagsOf, WithCopy, Charged;
    var q, o := s.requests[k], MoveOptions(true, false, false);
    assert SERVICE_OPTIONS == o;
    OneDestination(c.locations, f, action, url);
    MoveRegistersExactly(c.locations, s, q.record, 0, action, o, env, budget - submitted, q.file, f, Some(url));
  }

  /** An unknown record: nothing is moved or cleared, and the caller is told so. */
  lemma UnknownRecord(c: seq<Location>, cs: CatState, r: RecordId, limit: int, action: Action, o: MoveOptions, env: Env,
                      budget: int, force: bool, dry: bool, removable: string -> bool, name: string)
    ensures r !in cs.store.records ==>
              && RecordMoved(c, cs, r, limit, action, o, env, budget, name) == (cs, [])
              && RecordCleared(cs, r, limit, force, dry, removable, name) == (cs, NoRecord)
    ensures r in cs.store.records ==> RecordCleared(cs, r, limit, force, dry, removable, name).1 != NoRecord
  {
    hide MoveFiles, ClearFiles, RefreshAll, SelectFiles;
  }

  // ---------- Every transfer, over every run ----------

  /** The transfer is of a file of its record, and has the size of that file. */
  ghost predicate OfItsFile(l: Layouts, t: Transfer) {
    t.action != ClearHot && t.newFilename != "" && exists row :: Holds(l, t.record, row) && row.id == t.file && row.size == t.size
  }

  ghost predicate AllOfFiles(s: Store) {
    forall t | t in s.transfers :: OfItsFile(s.layout, t)
  }

  lemma MoveKeepsFiles(c: seq<Location>, s: Store, r: RecordId, limit: int, action: Action, o: MoveOptions, env: Env,
                       budget: int, name: string)
    requires Inv(s) && AllOfFiles(s) && action != ClearHot
    ensures AllOfFiles(RecordMoved(c, CatState(s, []), r, limit, action, o, env, budget, name).0.store)
  {
    hide RecordMoved, SelectFiles, Inv, Visited, Issues, Retagged, AllAdded, TagsOf, Holds, Moved, OfItsFile;
    var s', issued := RecordMoved(c, CatState(s, []), r, limit, action, o, env, budget, name).0.store,
                      RecordMoved(c, CatState(s, []), r, limit, action, o, env, budget, name).1;
    if r in s.records {
      SelectedApart(s, r, limit, name);
      MoveVisits(c, s, r, limit, action, o, env, budget, name);
      forall t | t in s'.transfers ensures OfItsFile(s'.layout, t) {
        MoveIssuesExactly(c, s, r, limit, action, o, env, budget, name, t);
        if t in issued {
          var f :| f in Visited(c, s, r, limit, action, o, env, budget, name) && IssuedFor(c, s, r, f, action, o, env, t);
          IsOfItsFile(c, s, r, f, action, o, env, t);
        }
      }
    } else {
      NoRecordMoved(c, s, r, limit, action, o, env, budget, name);
    }
  }

  lemma NoRecordMoved(c: seq<Location>, s: Store, r: RecordId, limit: int, action: Action, o: MoveOptions, env: Env,
                      budget: int, name: string)
    requires r !in s.records
    ensures RecordMoved(c, CatState(s, []), r, limit, action, o, env, budget, name).0.store == s
  {
  }

  lemma IsOfItsFile(c: seq<Location>, s: Store, r: RecordId, f: CachedFile, action: Action, o: MoveOptions, env: Env, t: Transfer)
    requires IssuedFor(c, s, r, f, action, o, env, t) && Holds(s.layout, r, f.row) && action != ClearHot
    ensures OfItsFile(s.layout, t)
  {
    hide Issues, Holds;
  }

  lemma {:induction false} SubmitKeepsFiles(c: Config, s: Store, action: Action, ids: seq<nat>, budget: int, submitted: nat,
                                            envs: nat -> Env)
    requires Inv(s) && AllOfFiles(s) && action != ClearHot && forall k | 0 <= k < |ids| :: ids[k] < |s.requests|
    ensures AllOfFiles(SubmitLoop(c, CatState(s, []), action, ids, budget, submitted, envs).0.store)
    decreases |ids|
  {
    hide Inv, RecordMoved, OfItsFile, Charged;
    if ids != [] {
      var q := s.requests[ids[0]];
      MoveKeepsFiles(c.locations, s, q.record, 0, action, SERVICE_OPTIONS, envs(ids[0]), budget - submitted, q.file);
      SubmitStepKeeps(c, s, action, ids[0], budget, submitted, envs(ids[0]));
      var (cs', submitted') := SubmitStep(c, CatState(s, []), action, ids[0], budget, submitted, envs(ids[0]));
      if budget - submitted' > 0 {
        SubmitKeepsFiles(c, cs'.store, action, ids[1..], budget, submitted', envs);
      }
    }
  }

  lemma SubmittedKeepsFiles(c: Config, s: Store, action: Action, envs: nat -> Env)
    requires Inv(s) && AllOfFiles(s) && action != ClearHot
    ensures var cs' := CheckSubmittedAction(c, CatState(s, []), action, envs);
            Inv(cs'.store) && AllOfFiles(cs'.store) && cs'.queue == []
  {
    hide Inv, SubmitLoop, AllOfFiles, RequestIds;
    var ids, budget := RequestIds(s.requests, Submitted, action), Threshold(c, action) - CountActive(s.transfers, action);
    SubmitKeepsFiles(c, s, action, ids, budget, 0, envs);
    SubmitLoopKeeps(c, s, action, ids, budget, 0, envs);
  }

  lemma PollKeepsFiles(s: Store, order: seq<nat>, answers: nat -> TransferStatus)
    requires Inv(s) && AllOfFiles(s) && Ongoing(s, order)
    ensures AllOfFiles(TransfersProcessed(s, order, answers))
  {
    hide Inv, TransfersProcessed, OfItsFile, Finishes, TagsOf, Delivered;
    var s' := TransfersProcessed(s, order, answers);
    PolledTables(s, order, answers);
    forall i: nat | i < |s'.transfers| ensures OfItsFile(s.layout, s'.transfers[i]) {
      PollExact(s, order, answers, i, 0);
      assert s.transfers[i] in s.transfers;
      SameFile(s.layout, s.transfers[i], s'.transfers[i]);
    }
  }

  lemma SameFile(l: Layouts, t: Transfer, t': Transfer)
    requires OfItsFile(l, t) && t' == t.(status := t'.status, finished := t'.finished)
    ensures OfItsFile(l, t')
  {
  }

  lemma PolledTables(s: Store, order: seq<nat>, answers: nat -> TransferStatus)
    requires Ongoing(s, order)
    ensures var s' := TransfersProcessed(s, order, answers); s'.layout == s.layout && |s'.transfers| == |s.transfers|
  {
    PolledLayout(CatState(s, []), order, answers);
  }

  lemma {:induction false} PolledLayout(cs: CatState, order: seq<nat>, answers: nat -> TransferStatus)
    requires forall k | 0 <= k < |order| :: order[k] < |cs.store.transfers|
    ensures TransferLoop(cs, order, answers).store.layout == cs.store.layout
    decreases |order|
  {
    if order != [] {
      PolledLayout(TransferStep(cs, order[0], answers(order[0])), order[1..], answers);
    }
  }

  lemma NextKeepsFiles(c: Config, s: Store, step: Step)
    requires Inv(s) && AllOfFiles(s) && Enabled(s, step)
    ensures AllOfFiles(Next(c, s, step))
  {
    hide Inv, OfItsFile, RunningChecked, RecordMoved, RecordCleared, CheckSubmittedAction, TransfersProcessed, Ongoing;
    match step
    case AskStage(_, _, _) =>
    case AskArchive(_, _) =>
    case Submit(envs) =>
      var stage, archive := (id: nat) => envs(Stage, id), (id: nat) => envs(Archive, id);
      SubmittedKeepsFiles(c, s, Stage, stage);
      SubmittedKeepsFiles(c, CheckSubmittedAction(c, CatState(s, []), Stage, stage).store, Archive, archive);
    case Complete =>
      CompleteBooks(s, Stage);
      CompletedLayout(s);
    case Poll(order, answers) => PollKeepsFiles(s, order, answers);
    case Move(action, r, limit, o, env, budget, file) =>
      MoveKeepsFiles(c.locations, s, r, limit, action, o, env, budget, file);
    case Clear(r, limit, force, dry, removable, file) =>
      ClearBooks(s, r, limit, force, dry, removable, file);
      ClearedLayout(s, r, limit, force, dry, removable, file);
    case Appear(_) =>
  }

  lemma CompletedLayout(s: Store)
    requires Inv(s)
    ensures RunningChecked(s).layout == s.layout
  {
    hide Inv, CheckRunningAction, Due;
    RunningActionExact(s, Stage);
    var s1 := CheckRunningAction(s, Stage);
    RunningActionExact(s1, Archive);
    var s2 := CheckRunningAction(s1, Archive);
    RunningActionExact(s2, ClearHot);
  }

  lemma ClearedLayout(s: Store, r: RecordId, limit: int, force: bool, dry: bool, removable: string -> bool, file: string)
    ensures RecordCleared(CatState(s, []), r, limit, force, dry, removable, file).0.store.layout == s.layout
  {
    hide ClearFiles, SelectFiles, RefreshAll;
    if r in s.records {
      ClearFilesLayout(CatState(s, []), r, SelectFiles(s.records[r], limit, file), force, dry, removable, false);
    }
  }

  lemma {:induction false} ClearFilesLayout(cs: CatState, r: RecordId, files: seq<CachedFile>, force: bool, dry: bool,
                                            removable: string -> bool, cleared: bool)
    ensures ClearFiles(cs, r, files, force, dry, removable, cleared).0.store.layout == cs.store.layout
    decreases |files|
  {
    hide IsQos;
    if files != [] {
      if !IsQos(files[0], Archive) || !IsQos(files[0], Stage) {
        ClearFilesLayout(cs, r, files[1..], force, dry, removable, cleared);
      } else {
        var cs0 := cs.(store := RemoveHot(cs.store, files[0].row.uri, dry, removable));
        var (ok, cs1) := MarkHotDeleted(cs0, r, files[0].row.id, force);
        if ok {
          ClearFilesLayout(cs1, r, files[1..], force, dry, removable, true);
        }
      }
    }
  }

  lemma {:induction false} RunKeepsFiles(c: Config, s: Store, steps: seq<Step>)
    requires Inv(s) && AllOfFiles(s) && Possible(c, s, steps)
    ensures AllOfFiles(End(c, s, steps))
    decreases |steps|
  {
    hide Inv, AllOfFiles, Next, Enabled;
    if steps != [] {
      NextKeeps(c, s, steps[0]);
      NextKeepsFiles(c, s, steps[0]);
      RunKeepsFiles(c, Next(c, s, steps[0]), steps[1..]);
    }
  }

  /** Over every run, each transfer in the table, finished or not, is of a file of its record, has the size of that file,
      and goes somewhere. */
  lemma TransfersAreOfFiles(c: Config, s0: Store, steps: seq<Step>, i: nat)
    requires Imported(s0) && Possible(c, s0, steps) && i < |End(c, s0, steps).transfers|
    ensures OfItsFile(End(c, s0, steps).layout, End(c, s0, steps).transfers[i])
  {
    hide Inv, End, OfItsFile;
    ImportedInv(s0);
    RunKeepsFiles(c, s0, steps);
    assert End(c, s0, steps).transfers[i] in End(c, s0, steps).transfers;
  }
}
