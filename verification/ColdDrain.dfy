/** How many passes of check_submitted it takes to start every stage request. */
module ColdDrain {
  import opened Arithmetic
  import opened ColdTypes
  import opened ColdModel
  import opened Locations
  import opened Catalog
  import opened Manager
  import opened Service
  import opened ColdInvariant
  import opened ColdPreservation
  import opened ColdRuns
  import opened ColdBudget

  /** Nothing exists at the destination yet, and every submission is accepted. */
  ghost predicate Willing(env: Env) {
    (forall url :: !env.verified(url)) && (forall id :: env.accepts(id))
  }

  /** The rows a request selects. */
  function NamedRows(indices: seq<IndexRow>, name: string): seq<FileRow> {
    if indices == [] then []
    else (if name == "" || indices[0].key == name then indices[0].files else []) + NamedRows(indices[1..], name)
  }

  function SelectedBy(l: Layout, name: string): seq<FileRow> {
    (if name == "" then l.direct else []) + NamedRows(l.indices, name)
  }

  /** A removed file that no unfinished transfer is bringing back. */
  predicate Open(s: Store, id: FileId) {
    TagsOf(s.tags, id).hotDeleted && !IsScheduled(s, id, Stage)
  }

  ghost function OpenRows(s: Store, rows: seq<FileRow>): set<FileId> {
    set i | 0 <= i < |rows| && Open(s, rows[i].id) :: rows[i].id
  }

  /** The files a request is still waiting to see submitted. */
  ghost function Wanted(s: Store, k: nat): set<FileId> {
    if k < |s.requests| && s.requests[k].record in s.layout
    then OpenRows(s, SelectedBy(s.layout[s.requests[k].record], s.requests[k].file))
    else {}
  }

  ghost function WantedBy(s: Store, ids: seq<nat>): set<FileId> {
    set k, id | k in ids && id in Wanted(s, k) :: id
  }

  // ---------- One operation ----------

  /** The listed files that are open, in order. */
  function OpenFiles(s: Store, files: seq<CachedFile>): seq<FileId> {
    if files == [] then []
    else (if Open(s, files[0].row.id) then [files[0].row.id] else []) + OpenFiles(s, files[1..])
  }

  function FilesOf(transfers: seq<Transfer>): seq<FileId> {
    if transfers == [] then [] else FilesOf(transfers[..|transfers| - 1]) + [transfers[|transfers| - 1].file]
  }

  ghost predicate Reachable(c: seq<Location>, files: seq<CachedFile>) {
    forall k | 0 <= k < |files| && files[k].tags.hotDeleted :: Destination(c, files[k], Stage).Some?
  }

  /** A willing storage takes a file exactly if it is open; nothing else changes. */
  lemma WillingStep(c: seq<Location>, run: MoveRun, r: RecordId, f: CachedFile, env: Env)
    requires Willing(env) && f == FreshFile(f.row, run.cs.store.tags)
    requires f.tags.hotDeleted ==> Destination(c, f, Stage).Some?
    ensures var next := MoveStep(c, run, r, f, Stage, SERVICE_OPTIONS, env);
            && next.registered == run.registered && next.cs.queue == run.cs.queue
            && next.cs.store == run.cs.store.(transfers := next.cs.store.transfers)
            && if Open(run.cs.store, f.row.id)
               then next.issued == run.issued + [NewTransfer(r, f, Stage, Destination(c, f, Stage).value)]
                 && next.cs.store.transfers == run.cs.store.transfers + [NewTransfer(r, f, Stage, Destination(c, f, Stage).value)]
               else next.issued == run.issued && next.cs.store.transfers == run.cs.store.transfers
  {
    hide Destination;
  }

  lemma OpenAfterIssue(s: Store, t: Transfer, id: FileId)
    requires t.action == Stage && !t.finished
    ensures Open(s.(transfers := s.transfers + [t]), id) <==> Open(s, id) && id != t.file
  {
    var s' := s.(transfers := s.transfers + [t]);
    if IsScheduled(s, id, Stage) {
      var i :| 0 <= i < |s.transfers| && s.transfers[i].file == id && s.transfers[i].action == Stage && !s.transfers[i].finished;
      assert s'.transfers[i].file == id;
    }
    assert s'.transfers[|s.transfers|] == t;
    if IsScheduled(s', id, Stage) {
      var i :| 0 <= i < |s'.transfers| && s'.transfers[i].file == id && s'.transfers[i].action == Stage && !s'.transfers[i].finished;
      assert i < |s.transfers| ==> s.transfers[i].file == id;
    }
  }

  lemma {:induction false} OpenFilesFrame(s: Store, s': Store, files: seq<CachedFile>)
    requires forall k | 0 <= k < |files| :: Open(s', files[k].row.id) == Open(s, files[k].row.id)
    ensures OpenFiles(s', files) == OpenFiles(s, files)
  {
    if files != [] {
      assert forall k | 0 <= k < |files[1..]| :: files[1..][k] == files[k + 1];
      OpenFilesFrame(s, s', files[1..]);
    }
  }

  /** After a visit, the open files are those that were open before, less the one just taken. */
  lemma {:induction false} VisitTakes(c: seq<Location>, run: MoveRun, r: RecordId, files: seq<CachedFile>, env: Env)
    requires files != [] && Willing(env) && files[0] == FreshFile(files[0].row, run.cs.store.tags)
    requires files[0].tags.hotDeleted ==> Destination(c, files[0], Stage).Some?
    requires forall k | 0 < k < |files| :: files[k].row.id != files[0].row.id
    ensures var next := MoveStep(c, run, r, files[0], Stage, SERVICE_OPTIONS, env);
            var taken := if Open(run.cs.store, files[0].row.id) then [files[0].row.id] else [];
            && OpenFiles(run.cs.store, files) == taken + OpenFiles(next.cs.store, files[1..])
            && FilesOf(next.issued) == FilesOf(run.issued) + taken && |next.issued| == |run.issued| + |taken|
  {
    hide MoveStep, Destination, Open, FreshFile;
    var f, rest := files[0], files[1..];
    WillingStep(c, run, r, f, env);
    var next := MoveStep(c, run, r, f, Stage, SERVICE_OPTIONS, env);
    if Open(run.cs.store, f.row.id) {
      var t := next.issued[|run.issued|];
      assert next.issued[..|next.issued| - 1] == run.issued;
      forall k | 0 <= k < |rest| ensures Open(next.cs.store, rest[k].row.id) == Open(run.cs.store, rest[k].row.id) {
        OpenAfterIssue(run.cs.store, t, rest[k].row.id);
        assert rest[k] == files[k + 1];
      }
      OpenFilesFrame(run.cs.store, next.cs.store, rest);
    } else {
      assert next.cs.store == run.cs.store;
    }
  }

  /** A willing storage is given the first open files, as many as the budget allows. */
  lemma {:induction false} MoveFilesDrain(c: seq<Location>, run: MoveRun, r: RecordId, files: seq<CachedFile>, env: Env,
                                          budget: int, rows: seq<FileRow>)
    requires Willing(env) && Lists(files, rows, run.cs.store.tags) && Reachable(c, files)
    requires |run.issued| < budget
    ensures var end := MoveFiles(c, run, r, files, Stage, SERVICE_OPTIONS, env, budget);
            var open := OpenFiles(run.cs.store, files);
            && end.registered == run.registered && end.cs.queue == run.cs.queue
            && end.cs.store == run.cs.store.(transfers := end.cs.store.transfers)
            && FilesOf(end.issued) == FilesOf(run.issued) + open[..Min(budget - |run.issued|, |open|)]
            && |end.issued| == |run.issued| + Min(budget - |run.issued|, |open|)
    decreases |files|
  {
    hide MoveStep, Destination, Open, FreshFile, OpenFiles, FilesOf;
    if files == [] {
      assert OpenFiles(run.cs.store, files) == [] by { NoOpenFiles(run.cs.store); }
    } else {
      var f, rest := files[0], files[1..];
      WillingStep(c, run, r, f, env);
      VisitTakes(c, run, r, files, env);
      var next := MoveStep(c, run, r, f, Stage, SERVICE_OPTIONS, env);
      assert Lists(rest, rows, next.cs.store.tags) && Reachable(c, rest) by {
        assert forall k | 0 <= k < |rest| :: rest[k] == files[k + 1];
      }
      if !Exhausted(next, budget) {
        MoveFilesDrain(c, next, r, rest, env, budget, rows);
      }
    }
  }

  lemma NoOpenFiles(s: Store)
    ensures OpenFiles(s, []) == []
  {
  }

  // ---------- Open files as sets ----------

  function SetOf(ids: seq<FileId>): set<FileId> {
    set i | 0 <= i < |ids| :: ids[i]
  }

  lemma {:induction false} DistinctSize(ids: seq<FileId>)
    requires forall j, k | 0 <= j < k < |ids| :: ids[j] != ids[k]
    ensures |SetOf(ids)| == |ids|
  {
    if ids != [] {
      var n := |ids| - 1;
      DistinctSize(ids[..n]);
      assert SetOf(ids) == SetOf(ids[..n]) + {ids[n]};
    }
  }

  lemma {:induction false} OpenFilesMembers(s: Store, files: seq<CachedFile>, rows: seq<FileRow>)
    requires forall j, k | 0 <= j < k < |files| :: files[j].row.id != files[k].row.id
    requires |rows| == |files| && forall k | 0 <= k < |files| :: files[k].row == rows[k]
    ensures SetOf(OpenFiles(s, files)) == OpenRows(s, rows)
    ensures var open := OpenFiles(s, files); forall j, k | 0 <= j < k < |open| :: open[j] != open[k]
  {
    hide Open;
    if files != [] {
      var rest, more := files[1..], rows[1..];
      assert forall k | 0 <= k < |rest| :: rest[k] == files[k + 1] && more[k] == rows[k + 1];
      OpenFilesMembers(s, rest, more);
      var tail := OpenFiles(s, rest);
      var head := if Open(s, rows[0].id) then [rows[0].id] else [];
      assert OpenFiles(s, files) == head + tail;
      assert SetOf(head + tail) == SetOf(head) + SetOf(tail) by {
        SetOfAppend(head, tail);
      }
      assert OpenRows(s, rows) == SetOf(head) + OpenRows(s, more) by {
        OpenRowsHead(s, rows);
      }
      assert rows[0].id !in OpenRows(s, more);
      assert forall k | 0 <= k < |tail| :: tail[k] in SetOf(tail);
    }
  }

  lemma SetOfAppend(a: seq<FileId>, b: seq<FileId>)
    ensures SetOf(a + b) == SetOf(a) + SetOf(b)
  {
    forall id | id in SetOf(b) ensures id in SetOf(a + b) {
      var i :| 0 <= i < |b| && b[i] == id;
      assert (a + b)[|a| + i] == id;
    }
    forall id | id in SetOf(a) ensures id in SetOf(a + b) {
      var i :| 0 <= i < |a| && a[i] == id;
      assert (a + b)[i] == id;
    }
  }

  lemma OpenRowsHead(s: Store, rows: seq<FileRow>)
    requires rows != []
    ensures OpenRows(s, rows) == SetOf(if Open(s, rows[0].id) then [rows[0].id] else []) + OpenRows(s, rows[1..])
  {
    hide Open;
    var head := if Open(s, rows[0].id) then [rows[0].id] else [];
    forall id ensures id in OpenRows(s, rows) <==> id in SetOf(head) + OpenRows(s, rows[1..]) {
      if id in OpenRows(s, rows) {
        var i :| 0 <= i < |rows| && Open(s, rows[i].id) && rows[i].id == id;
        assert if i == 0 then head[0] == id else rows[1..][i - 1].id == id;
      }
      if id in OpenRows(s, rows[1..]) {
        var i :| 0 <= i < |rows[1..]| && Open(s, rows[1..][i].id) && rows[1..][i].id == id;
        assert rows[i + 1].id == id;
      }
      if id in SetOf(head) {
        assert rows[0].id == id;
      }
    }
  }

  lemma {:induction false} NamedRowsMatch(indices: seq<IndexRow>, tags: map<FileId, Tags>, name: string)
    ensures var files := IndexFiles(FreshIndices(indices, tags), name);
            && |files| == |NamedRows(indices, name)|
            && forall k | 0 <= k < |files| :: files[k].row == NamedRows(indices, name)[k]
  {
    hide CountOnto, TotalSize;
    if indices != [] {
      NamedRowsMatch(indices[1..], tags, name);
      assert FreshIndices(indices, tags)[1..] == FreshIndices(indices[1..], tags);
    }
  }

  lemma SelectedMatch(s: Store, r: RecordId, name: string)
    requires r in s.layout && r in s.records && Agrees(s, r)
    ensures var files, rows := NamedFiles(s.records[r], name), SelectedBy(s.layout[r], name);
            |files| == |rows| && forall k | 0 <= k < |files| :: files[k].row == rows[k]
  {
    NamedRowsMatch(s.layout[r].indices, s.tags, name);
  }

  /** The open files among those a request selects are the files it wants. */
  lemma OpenIsWanted(s: Store, k: nat)
    requires Inv(s) && k < |s.requests|
    ensures s.requests[k].record in s.records
    ensures var files := NamedFiles(s.records[s.requests[k].record], s.requests[k].file);
            && SetOf(OpenFiles(s, files)) == Wanted(s, k) && |OpenFiles(s, files)| == |Wanted(s, k)|
  {
    var q := s.requests[k];
    RequestResolves(s, k);
    SelectedRows(s, q.record, q.file);
    RecordAgrees(s, q.record);
    SelectedMatch(s, q.record, q.file);
    hide Inv, Agrees, NamedFiles, SelectedBy, Open, Rows, OpenFiles;
    var files := NamedFiles(s.records[q.record], q.file);
    OpenFilesMembers(s, files, SelectedBy(s.layout[q.record], q.file));
    DistinctSize(OpenFiles(s, files));
  }

  lemma RecordAgrees(s: Store, r: RecordId)
    requires Inv(s) && r in s.records
    ensures r in s.layout && Agrees(s, r)
  {
    assert CacheSound(s, r);
  }

  // ---------- One request ----------

  /** Every removed file that the request selects can be translated back to hot storage. */
  ghost predicate StageableFor(c: seq<Location>, s: Store, q: Request) {
    q.record in s.layout ==>
      forall row | row in SelectedBy(s.layout[q.record], q.file) && TagsOf(s.tags, row.id).hotDeleted ::
        Destination(c, FreshFile(row, s.tags), Stage).Some?
  }

  /** That holds for the submitted stage requests. */
  ghost predicate Stageable(c: seq<Location>, s: Store) {
    forall k | 0 <= k < |s.requests| && s.requests[k].status == Submitted && s.requests[k].action == Stage ::
      StageableFor(c, s, s.requests[k])
  }

  lemma StageReachable(c: seq<Location>, s: Store, q: Request)
    requires Inv(s) && StageableFor(c, s, q) && q.record in s.records
    ensures Reachable(c, NamedFiles(s.records[q.record], q.file))
  {
    SelectedRows(s, q.record, q.file);
    RecordAgrees(s, q.record);
    SelectedMatch(s, q.record, q.file);
    hide Destination, NamedFiles, SelectedBy, Inv, Agrees, Rows;
    var files, rows := NamedFiles(s.records[q.record], q.file), SelectedBy(s.layout[q.record], q.file);
    forall k | 0 <= k < |files| && files[k].tags.hotDeleted ensures Destination(c, files[k], Stage).Some? {
      assert files[k].row == rows[k] && files[k] == FreshFile(rows[k], s.tags);
    }
  }

  lemma {:induction false} OpenAfterIssues(s: Store, issued: seq<Transfer>, r: RecordId, id: FileId)
    requires AllNew(issued, r, Stage)
    ensures Open(s.(transfers := s.transfers + issued), id) <==> Open(s, id) && id !in FilesOf(issued)
  {
    hide Open;
    if issued == [] {
      assert s.transfers + issued == s.transfers;
      assert s.(transfers := s.transfers) == s;
    } else {
      var n := |issued| - 1;
      OpenAfterIssues(s, issued[..n], r, id);
      var s1 := s.(transfers := s.transfers + issued[..n]);
      OpenAfterIssue(s1, issued[n], id);
      assert s.transfers + issued == s.transfers + issued[..n] + [issued[n]];
    }
  }

  /** Moving a record's files on a willing storage: the first open ones are issued, within the budget. */
  lemma RecordDrains(c: seq<Location>, s: Store, k: nat, env: Env, budget: int) returns (taken: set<FileId>)
    requires Inv(s) && Willing(env) && k < |s.requests| && StageableFor(c, s, s.requests[k]) && budget > 0
    ensures var q := s.requests[k];
            var (cs', issued) := RecordMoved(c, CatState(s, []), q.record, 0, Stage, SERVICE_OPTIONS, env, budget, q.file);
            && cs' == CatState(s.(transfers := s.transfers + issued), [])
            && AllNew(issued, q.record, Stage)
            && taken == SetOf(FilesOf(issued)) && taken <= Wanted(s, k)
            && |issued| == |taken| == Min(budget, |Wanted(s, k)|)
            && (|Wanted(s, k)| <= budget ==> taken == Wanted(s, k))
  {
    hide Inv, Wanted, StageableFor, Reachable, MoveFiles, Lists, NamedFiles, OpenFiles, Rows;
    var q := s.requests[k];
    OpenIsWanted(s, k);
    SelectedRows(s, q.record, q.file);
    StageReachable(c, s, q);
    var files := NamedFiles(s.records[q.record], q.file);
    var open := OpenFiles(s, files);
    MoveFilesDrain(c, MoveRun(CatState(s, []), [], false, 0), q.record, files, env, budget, Rows(s.layout[q.record]));
    RecordMovedIssues(c, CatState(s, []), q.record, 0, Stage, SERVICE_OPTIONS, env, budget, q.file);
    OpenDistinct(s, k);
    var n := Min(budget, |open|);
    taken := SetOf(open[..n]);
    DistinctSize(open[..n]);
    var (cs', issued) := RecordMoved(c, CatState(s, []), q.record, 0, Stage, SERVICE_OPTIONS, env, budget, q.file);
    assert FilesOf(issued) == [] + open[..n] == open[..n];
    assert n == |open| ==> open[..n] == open;
  }

  lemma OpenDistinct(s: Store, k: nat)
    requires Inv(s) && k < |s.requests| && s.requests[k].record in s.records
    ensures var open := OpenFiles(s, NamedFiles(s.records[s.requests[k].record], s.requests[k].file));
            forall i, j | 0 <= i < j < |open| :: open[i] != open[j]
  {
    hide Inv, NamedFiles, Rows, OpenFiles;
    var q := s.requests[k];
    SelectedRows(s, q.record, q.file);
    var files := NamedFiles(s.records[q.record], q.file);
    OpenFilesMembers(s, files, seq(|files|, i requires 0 <= i < |files| => files[i].row));
  }

  // ---------- The loop over the submitted requests ----------

  /** Requests keep what they ask for, and files keep their tags. */
  ghost predicate SameAsked(s: Store, s': Store) {
    && s'.layout == s.layout && s'.tags == s.tags && |s'.requests| == |s.requests|
    && forall k | 0 <= k < |s.requests| ::
      && s'.requests[k].record == s.requests[k].record && s'.requests[k].file == s.requests[k].file
      && s'.requests[k].action == s.requests[k].action
  }

  lemma WantedShrinks(s: Store, s': Store, issued: seq<Transfer>, r: RecordId, k: nat)
    requires SameAsked(s, s') && s'.transfers == s.transfers + issued && AllNew(issued, r, Stage)
    ensures Wanted(s', k) == Wanted(s, k) - SetOf(FilesOf(issued))
  {
    if k < |s.requests| && s.requests[k].record in s.layout {
      var q := s.requests[k];
      var rows := SelectedBy(s.layout[q.record], q.file);
      forall i | 0 <= i < |rows| ensures Open(s', rows[i].id) <==> Open(s, rows[i].id) && rows[i].id !in SetOf(FilesOf(issued)) {
        OpenAfterIssues(s, issued, r, rows[i].id);
        var s1 := s.(transfers := s.transfers + issued);
        assert IsScheduled(s', rows[i].id, Stage) == IsScheduled(s1, rows[i].id, Stage);
      }
    }
  }

  /** What one served request does: it takes open files it wants, as many as the budget allows. */
  lemma SubmitStepDrains(c: Config, s: Store, k: nat, budget: int, submitted: nat, env: Env) returns (taken: set<FileId>)
    requires Inv(s) && Stageable(c.locations, s) && Willing(env) && k < |s.requests| && submitted < budget
    requires s.requests[k].status == Submitted && s.requests[k].action == Stage
    ensures var (cs', submitted') := SubmitStep(c, CatState(s, []), Stage, k, budget, submitted, env);
            var s' := cs'.store;
            && cs'.queue == [] && Inv(s') && SameAsked(s, s')
            && submitted' == submitted + |taken| && |taken| == Min(budget - submitted, |Wanted(s, k)|) && taken <= Wanted(s, k)
            && (forall j: nat :: Wanted(s', j) == Wanted(s, j) - taken)
            && (forall j | 0 <= j < |s.requests| && j != k :: s'.requests[j].status == s.requests[j].status)
            && s'.requests[k].status == (if budget == submitted' then Submitted else Started)
            && (|Wanted(s, k)| <= budget - submitted ==> taken == Wanted(s, k))
  {
    hide Inv, RecordMoved, Wanted, StageableFor;
    SubmitStepKeeps(c, s, Stage, k, budget, submitted, env);
    taken := RecordDrains(c.locations, s, k, env, budget - submitted);
    var q := s.requests[k];
    var (moved, issued) := RecordMoved(c.locations, CatState(s, []), q.record, 0, Stage, SERVICE_OPTIONS, env, budget - submitted, q.file);
    var s' := SubmitStep(c, CatState(s, []), Stage, k, budget, submitted, env).0.store;
    forall j: nat ensures Wanted(s', j) == Wanted(s, j) - taken {
      WantedShrinks(s, s', issued, q.record, j);
    }
  }

  lemma WantedByHead(s: Store, ids: seq<nat>)
    requires ids != []
    ensures WantedBy(s, ids) == Wanted(s, ids[0]) + WantedBy(s, ids[1..])
  {
    hide Wanted;
    assert ids == [ids[0]] + ids[1..];
  }

  lemma WantedByMinus(s: Store, s': Store, ids: seq<nat>, taken: set<FileId>)
    requires forall j: nat :: Wanted(s', j) == Wanted(s, j) - taken
    ensures WantedBy(s', ids) == WantedBy(s, ids) - taken
  {
    hide Wanted;
    forall id | id in WantedBy(s', ids) ensures id in WantedBy(s, ids) - taken {
      var k: nat :| k in ids && id in Wanted(s', k);
      assert id in Wanted(s, k);
    }
    forall id | id in WantedBy(s, ids) - taken ensures id in WantedBy(s', ids) {
      var k: nat :| k in ids && id in Wanted(s, k);
      assert id in Wanted(s', k);
    }
  }

  /** The outcome of a pass over some submitted stage requests. */
  ghost predicate Drained(s: Store, ids: seq<nat>, room: int, s': Store, issued: int) {
    && SameAsked(s, s')
    && issued == Min(room, |WantedBy(s, ids)|)
    && |WantedBy(s', ids)| == |WantedBy(s, ids)| - issued
    && (forall j: nat :: Wanted(s', j) <= Wanted(s, j))
    && (forall j | 0 <= j < |s.requests| && j !in ids :: s'.requests[j].status == s.requests[j].status)
    && (forall j | 0 <= j < |s.requests| && j in ids :: Served(s', j))
    && (if |WantedBy(s, ids)| < room then forall j | 0 <= j < |s.requests| && j in ids :: s'.requests[j].status == Started
        else exists j :: 0 <= j < |s.requests| && j in ids && s'.requests[j].status == Submitted)
  }

  /** Started, with nothing left to submit, or still submitted. */
  ghost predicate Served(s: Store, j: nat)
    requires j < |s.requests|
  {
    (s.requests[j].status == Started && Wanted(s, j) == {}) || s.requests[j].status == Submitted
  }

  /** The listed requests are distinct submitted stage requests. */
  ghost predicate Waiting(s: Store, ids: seq<nat>) {
    && (forall i | 0 <= i < |ids| ::
          ids[i] < |s.requests| && s.requests[ids[i]].status == Submitted && s.requests[ids[i]].action == Stage)
    && (forall i, j | 0 <= i < j < |ids| :: ids[i] != ids[j])
  }

  lemma {:induction false} SubmitLoopDrains(c: Config, s: Store, ids: seq<nat>, budget: int, submitted: nat, envs: nat -> Env)
    requires Inv(s) && Stageable(c.locations, s) && (forall k :: Willing(envs(k))) && submitted < budget
    requires Waiting(s, ids)
    ensures var (cs', submitted') := SubmitLoop(c, CatState(s, []), Stage, ids, budget, submitted, envs);
            && cs'.queue == [] && Inv(cs'.store)
            && Drained(s, ids, budget - submitted, cs'.store, submitted' - submitted)
    decreases |ids|
  {
    hide Inv, SubmitStep, Wanted, WantedBy, SameAsked, Drained, Stageable;
    if ids == [] {
      DrainedNothing(s, budget - submitted);
    } else {
      var k, rest := ids[0], ids[1..];
      var taken := SubmitStepDrains(c, s, k, budget, submitted, envs(k));
      var (cs1, submitted1) := SubmitStep(c, CatState(s, []), Stage, k, budget, submitted, envs(k));
      if budget - submitted1 <= 0 {
        DrainedStop(s, ids, budget - submitted, cs1.store, taken);
      } else {
        assert Stageable(c.locations, cs1.store) && Waiting(cs1.store, rest) by {
          SameAskedNames(c.locations, s, cs1.store, ids);
        }
        SubmitLoopDrains(c, cs1.store, rest, budget, submitted1, envs);
        var (cs', submitted') := SubmitLoop(c, cs1, Stage, rest, budget, submitted1, envs);
        DrainedMore(s, ids, budget - submitted, cs1.store, taken, cs'.store, submitted' - submitted1);
      }
    }
  }

  lemma SameAskedNames(c: seq<Location>, s: Store, s': Store, ids: seq<nat>)
    requires SameAsked(s, s') && ids != [] && Waiting(s, ids)
    requires forall j | 0 <= j < |s.requests| && j != ids[0] :: s'.requests[j].status == s.requests[j].status
    ensures (Stageable(c, s) ==> Stageable(c, s')) && Waiting(s', ids[1..])
  {
    assert forall i | 0 <= i < |ids[1..]| :: ids[1..][i] == ids[i + 1];
    if Stageable(c, s) {
      forall j | 0 <= j < |s'.requests| && s'.requests[j].status == Submitted && s'.requests[j].action == Stage
        ensures StageableFor(c, s', s'.requests[j]) {
        StageableStays(c, s, s', s.requests[j], s'.requests[j]);
      }
    }
  }

  lemma StageableStays(c: seq<Location>, s: Store, s': Store, q: Request, q': Request)
    requires StageableFor(c, s, q) && s'.layout == s.layout && q'.record == q.record && q'.file == q.file
    requires forall id | TagsOf(s'.tags, id).hotDeleted :: TagsOf(s'.tags, id) == TagsOf(s.tags, id)
    ensures StageableFor(c, s', q')
  {
    hide Destination, SelectedBy;
    if q.record in s.layout {
      forall row | row in SelectedBy(s.layout[q.record], q.file) && TagsOf(s'.tags, row.id).hotDeleted
        ensures Destination(c, FreshFile(row, s'.tags), Stage).Some? {
        assert FreshFile(row, s'.tags) == FreshFile(row, s.tags);
      }
    }
  }

  lemma DrainedNothing(s: Store, room: int)
    requires room > 0
    ensures Drained(s, [], room, s, 0)
  {
    assert WantedBy(s, []) == {};
  }

  /** One step that uses up the room. */
  lemma DrainedStop(s: Store, ids: seq<nat>, room: int, s1: Store, taken: set<FileId>)
    requires ids != [] && Waiting(s, ids) && room > 0
    requires SameAsked(s, s1) && |taken| == room == Min(room, |Wanted(s, ids[0])|) && taken <= Wanted(s, ids[0])
    requires forall j: nat :: Wanted(s1, j) == Wanted(s, j) - taken
    requires forall j | 0 <= j < |s.requests| && j != ids[0] :: s1.requests[j].status == s.requests[j].status
    requires s1.requests[ids[0]].status == Submitted
    ensures Drained(s, ids, room, s1, room)
  {
    hide Wanted, WantedBy;
    WantedByHead(s, ids);
    WantedByMinus(s, s1, ids, taken);
    var w := WantedBy(s, ids);
    assert taken <= w;
    assert w == taken + (w - taken);
    assert |w| == |taken| + |w - taken|;
    assert ids[0] in ids;
  }

  /** One step that leaves room, followed by the rest of the loop. */
  lemma DrainedMore(s: Store, ids: seq<nat>, room: int, s1: Store, taken: set<FileId>, s2: Store, issued: int)
    requires ids != [] && Waiting(s, ids) && room > 0
    requires SameAsked(s, s1) && |taken| < room && taken == Wanted(s, ids[0])
    requires forall j: nat :: Wanted(s1, j) == Wanted(s, j) - taken
    requires forall j | 0 <= j < |s.requests| && j != ids[0] :: s1.requests[j].status == s.requests[j].status
    requires s1.requests[ids[0]].status == Started
    requires Drained(s1, ids[1..], room - |taken|, s2, issued)
    ensures Drained(s, ids, room, s2, |taken| + issued)
  {
    hide Wanted, WantedBy, TagsOf;
    var k, rest := ids[0], ids[1..];
    assert ids == [k] + rest && k !in rest;
    WantedByHead(s, ids);
    WantedByMinus(s, s1, rest, taken);
    assert WantedBy(s, ids) == taken + WantedBy(s1, rest);
    assert |WantedBy(s, ids)| == |taken| + |WantedBy(s1, rest)|;
    WantedByHead(s2, ids);
    assert Wanted(s2, k) <= Wanted(s1, k) == {};
    assert WantedBy(s2, ids) == WantedBy(s2, rest);
  }

  // ---------- What archiving and finished transfers leave alone ----------

  /** The stage requests, the files that are open, and the tags of the removed files are the same. */
  ghost predicate SameStaging(s: Store, s': Store) {
    && s'.layout == s.layout && |s'.requests| == |s.requests|
    && (forall k | 0 <= k < |s.requests| :: s'.requests[k].action == s.requests[k].action)
    && (forall k | 0 <= k < |s.requests| && s.requests[k].action == Stage :: s'.requests[k] == s.requests[k])
    && (forall id :: Open(s', id) <==> Open(s, id))
    && (forall id | TagsOf(s'.tags, id).hotDeleted :: TagsOf(s'.tags, id) == TagsOf(s.tags, id))
  }

  lemma SameStagingJoin(s: Store, s1: Store, s2: Store)
    requires SameStaging(s, s1) && SameStaging(s1, s2)
    ensures SameStaging(s, s2)
  {
    hide Open;
  }

  /** The tables that Open reads. */
  lemma OpenReads(s: Store, s': Store)
    requires s'.tags == s.tags && s'.transfers == s.transfers
    ensures forall id :: Open(s', id) <==> Open(s, id)
  {
    forall id ensures IsScheduled(s', id, Stage) == IsScheduled(s, id, Stage) {
    }
  }

  lemma ArchiveFileSame(c: seq<Location>, cs: CatState, r: RecordId, f: CachedFile, env: Env)
    requires Willing(env)
    ensures SameStaging(cs.store, MoveFile(c, cs, r, f, Archive, SERVICE_OPTIONS, env).1.store)
  {
    hide Destination;
    var s, s' := cs.store, MoveFile(c, cs, r, f, Archive, SERVICE_OPTIONS, env).1.store;
    forall id ensures IsScheduled(s', id, Stage) <==> IsScheduled(s, id, Stage) {
      if IsScheduled(s, id, Stage) {
        var i :| 0 <= i < |s.transfers| && s.transfers[i].file == id && s.transfers[i].action == Stage && !s.transfers[i].finished;
        assert s'.transfers[i] == s.transfers[i];
      }
    }
  }

  lemma {:induction false} ArchiveFilesSame(c: seq<Location>, run: MoveRun, r: RecordId, files: seq<CachedFile>, env: Env, budget: int)
    requires Willing(env)
    ensures SameStaging(run.cs.store, MoveFiles(c, run, r, files, Archive, SERVICE_OPTIONS, env, budget).cs.store)
    decreases |files|
  {
    hide MoveFile, SameStaging;
    if files == [] {
      assert SameStaging(run.cs.store, run.cs.store) by { SameStagingSelf(run.cs.store); }
    } else {
      ArchiveFileSame(c, run.cs, r, files[0], env);
      var next := MoveStep(c, run, r, files[0], Archive, SERVICE_OPTIONS, env);
      if !Exhausted(next, budget) {
        ArchiveFilesSame(c, next, r, files[1..], env, budget);
        SameStagingJoin(run.cs.store, next.cs.store,
                        MoveFiles(c, next, r, files[1..], Archive, SERVICE_OPTIONS, env, budget).cs.store);
      }
    }
  }

  lemma SameStagingSelf(s: Store)
    ensures SameStaging(s, s)
  {
  }

  lemma ArchiveStepSame(c: Config, cs: CatState, id: nat, budget: int, submitted: nat, env: Env)
    requires Willing(env) && id < |cs.store.requests| && cs.store.requests[id].action == Archive
    ensures SameStaging(cs.store, SubmitStep(c, cs, Archive, id, budget, submitted, env).0.store)
  {
    hide MoveFiles, RefreshAll, Open, NamedFiles;
    var q, left := cs.store.requests[id], budget - submitted;
    var s' := SubmitStep(c, cs, Archive, id, budget, submitted, env).0.store;
    if q.record in cs.store.records {
      var files := SelectFiles(cs.store.records[q.record], 0, q.file);
      var run := MoveRun(cs, [], false, 0);
      ArchiveFilesSame(c.locations, run, q.record, files, env, left);
      OpenReads(MoveFiles(c.locations, run, q.record, files, Archive, SERVICE_OPTIONS, env, left).cs.store, s');
    } else {
      OpenReads(cs.store, s');
    }
  }

  lemma {:induction false} ArchiveLoopSame(c: Config, cs: CatState, ids: seq<nat>, budget: int, submitted: nat, envs: nat -> Env)
    requires forall k :: Willing(envs(k))
    requires forall k | 0 <= k < |ids| :: ids[k] < |cs.store.requests| && cs.store.requests[ids[k]].action == Archive
    ensures SameStaging(cs.store, SubmitLoop(c, cs, Archive, ids, budget, submitted, envs).0.store)
    decreases |ids|
  {
    hide SubmitStep, Open;
    if ids != [] {
      ArchiveStepSame(c, cs, ids[0], budget, submitted, envs(ids[0]));
      var (cs1, submitted1) := SubmitStep(c, cs, Archive, ids[0], budget, submitted, envs(ids[0]));
      if budget - submitted1 > 0 {
        assert forall k | 0 <= k < |ids[1..]| :: ids[1..][k] == ids[k + 1];
        ArchiveLoopSame(c, cs1, ids[1..], budget, submitted1, envs);
        SameStagingJoin(cs.store, cs1.store, SubmitLoop(c, cs1, Archive, ids[1..], budget, submitted1, envs).0.store);
      }
    }
  }

  /** A finished transfer closes no open file and opens none: a staged file stops being scheduled and removed at once. */
  lemma DoneSame(cs: CatState, id: nat)
    requires Mid(cs) && id < |cs.store.transfers| && !cs.store.transfers[id].finished
    ensures SameStaging(cs.store, TransferStep(cs, id, Done).store)
  {
    hide Mid, OneVersion, Resolved, CacheSound, Holds;
    var s, s' := cs.store, TransferStep(cs, id, Done).store;
    var t := s.transfers[id];
    assert t.file in s.tags && !t.action.ClearHot? && (t.action.Archive? ==> !s.tags[t.file].hotDeleted) by {
      FitsTable(cs, id);
    }
    forall file ensures Open(s', file) <==> Open(s, file) {
      if file == t.file && t.action == Stage {
        assert IsScheduled(s, file, Stage);
      } else {
        ScheduledElsewhere(s, s', id, file);
      }
    }
  }

  lemma FitsTable(cs: CatState, id: nat)
    requires Mid(cs) && id < |cs.store.transfers| && !cs.store.transfers[id].finished
    ensures var t, tags := cs.store.transfers[id], cs.store.tags;
            t.file in tags && !t.action.ClearHot? && (t.action.Archive? ==> !tags[t.file].hotDeleted)
  {
    hide OneVersion, Resolved, CacheSound;
    var s := cs.store;
    var row :| TransferFits(s.layout, s.tags, s.transfers[id], row);
    assert Holds(s.layout, s.transfers[id].record, row);
  }

  lemma ScheduledElsewhere(s: Store, s': Store, id: nat, file: FileId)
    requires id < |s.transfers| == |s'.transfers|
    requires forall i | 0 <= i < |s.transfers| && i != id :: s'.transfers[i] == s.transfers[i]
    requires s.transfers[id].file != file || s.transfers[id].action != Stage
    requires s'.transfers[id].file == s.transfers[id].file && s'.transfers[id].action == s.transfers[id].action
    ensures IsScheduled(s', file, Stage) <==> IsScheduled(s, file, Stage)
  {
    if IsScheduled(s, file, Stage) {
      var i :| 0 <= i < |s.transfers| && s.transfers[i].file == file && s.transfers[i].action == Stage && !s.transfers[i].finished;
      assert s'.transfers[i] == s.transfers[i];
    }
    if IsScheduled(s', file, Stage) {
      var i :| 0 <= i < |s'.transfers| && s'.transfers[i].file == file && s'.transfers[i].action == Stage && !s'.transfers[i].finished;
      assert s.transfers[i] == s'.transfers[i];
    }
  }

  const ALL_DONE: nat -> TransferStatus := (id: nat) => Done

  lemma DoneFinishes(cs: CatState, id: nat)
    requires id < |cs.store.transfers|
    ensures var s, s' := cs.store, TransferStep(cs, id, Done).store;
            s'.transfers == s.transfers[id := s.transfers[id].(status := Done, finished := true)]
  {
  }

  lemma {:induction false} DoneLoopSame(cs: CatState, order: seq<nat>)
    requires Mid(cs) && Ongoing(cs.store, order)
    ensures var s, s' := cs.store, TransferLoop(cs, order, ALL_DONE).store;
            && SameStaging(s, s')
            && forall i | 0 <= i < |s.transfers| && (s.transfers[i].finished || i in order) :: s'.transfers[i].finished
    decreases |order|
  {
    hide Mid, SameStaging, TransferStep;
    if order == [] {
      SameStagingSelf(cs.store);
    } else {
      var rest, next := order[1..], TransferStep(cs, order[0], Done);
      DoneSame(cs, order[0]);
      TransferStepKeeps(cs, order[0], Done);
      DoneFinishes(cs, order[0]);
      assert order == [order[0]] + rest;
      assert Ongoing(next.store, rest) by { DoneTail(cs, order); }
      DoneLoopSame(next, rest);
      SameStagingJoin(cs.store, next.store, TransferLoop(next, rest, ALL_DONE).store);
    }
  }

  lemma DoneTail(cs: CatState, order: seq<nat>)
    requires order != [] && Ongoing(cs.store, order)
    ensures var next := TransferStep(cs, order[0], Done);
            Ongoing(next.store, order[1..])
  {
    DoneFinishes(cs, order[0]);
    assert forall k | 0 <= k < |order[1..]| :: order[1..][k] == order[k + 1];
  }

  // ---------- Rounds: a pass, after which every issued transfer is done before the next one ----------

  datatype Round = Round(envs: (Action, nat) -> Env, order: seq<nat>)

  ghost predicate Idle(s: Store) {
    forall i | 0 <= i < |s.transfers| :: s.transfers[i].finished
  }

  ghost predicate Fits(c: Config, s: Store, round: Round) {
    var s1 := SubmittedChecked(c, s, round.envs);
    && (forall a, id :: Willing(round.envs(a, id)))
    && Ongoing(s1, round.order)
    && forall i | 0 <= i < |s1.transfers| && !s1.transfers[i].finished :: i in round.order
  }

  ghost function AfterRound(c: Config, s: Store, round: Round): Store
    requires Fits(c, s, round)
  {
    TransfersProcessed(SubmittedChecked(c, s, round.envs), round.order, ALL_DONE)
  }

  function StillSubmitted(s: Store): seq<nat> {
    RequestIds(s.requests, Submitted, Stage)
  }

  /** The distinct files still to be submitted for staging, over all the submitted requests. */
  ghost function Backlog(s: Store): set<FileId> {
    WantedBy(s, StillSubmitted(s))
  }

  lemma {:induction false} IdleCount(ts: seq<Transfer>, a: Action)
    requires forall i | 0 <= i < |ts| :: ts[i].finished
    ensures CountActive(ts, a) == 0
  {
    if ts != [] {
      IdleCount(ts[..|ts| - 1], a);
    }
  }

  lemma WaitingRequests(s: Store)
    ensures Waiting(s, StillSubmitted(s))
    ensures forall j | 0 <= j < |s.requests| && s.requests[j].status == Submitted && s.requests[j].action == Stage ::
              j in StillSubmitted(s)
  {
    RequestIdsExact(s.requests, Submitted, Stage);
  }

  /** The pass: the stage loop drains, the archive loop leaves the stage requests alone. */
  lemma PassDrains(c: Config, s: Store, envs: (Action, nat) -> Env) returns (issued: nat, s1: Store)
    requires Inv(s) && Stageable(c.locations, s) && Idle(s) && c.stageThreshold >= 1
    requires forall a, id :: Willing(envs(a, id))
    ensures Drained(s, StillSubmitted(s), c.stageThreshold, s1, issued)
    ensures SameStaging(s1, SubmittedChecked(c, s, envs))
    ensures Inv(SubmittedChecked(c, s, envs))
  {
    hide Inv, Drained, SubmitLoop, SameStaging;
    var T, ids := c.stageThreshold, StillSubmitted(s);
    var stage, archive := (id: nat) => envs(Stage, id), (id: nat) => envs(Archive, id);
    SubmittedCheckedKeeps(c, s, envs);
    IdleCount(s.transfers, Stage);
    WaitingRequests(s);
    SubmitLoopDrains(c, s, ids, T, 0, stage);
    var (cs1, submitted) := SubmitLoop(c, CatState(s, []), Stage, ids, T, 0, stage);
    issued, s1 := submitted, cs1.store;
    var archiveIds := RequestIds(s1.requests, Submitted, Archive);
    RequestIdsExact(s1.requests, Submitted, Archive);
    SameStagingSelf(s1);
    ArchiveLoopSame(c, cs1, archiveIds, Threshold(c, Archive) - CountActive(s1.transfers, Archive), 0, archive);
  }

  /** After the pass, every issued transfer is done; this changes nothing for the stage requests. */
  lemma SettleSame(s: Store, order: seq<nat>)
    requires Inv(s) && Ongoing(s, order)
    requires forall i | 0 <= i < |s.transfers| && !s.transfers[i].finished :: i in order
    ensures var s' := TransfersProcessed(s, order, ALL_DONE);
            Inv(s') && Idle(s') && SameStaging(s, s')
  {
    hide Inv, Mid, TransferLoop, RefreshAll, Open, SameStaging;
    InvIsMid(s);
    DoneLoopSame(CatState(s, []), order);
    TransfersProcessedKeeps(s, order, ALL_DONE);
    var s2 := TransferLoop(CatState(s, []), order, ALL_DONE).store;
    RefreshSame(s, s2, TransfersProcessed(s, order, ALL_DONE));
  }

  lemma InvIsMid(s: Store)
    requires Inv(s)
    ensures Mid(CatState(s, []))
  {
  }

  lemma RefreshSame(s: Store, s2: Store, s': Store)
    requires SameStaging(s, s2) && s' == s2.(records := s'.records)
    ensures SameStaging(s, s')
  {
    hide Open;
    OpenReads(s2, s');
  }

  lemma SameWanted(s: Store, s': Store, k: nat)
    requires SameStaging(s, s') && (k < |s.requests| ==> s.requests[k].action == Stage)
    ensures Wanted(s', k) == Wanted(s, k)
  {
    hide Open;
  }

  /** One round takes the threshold off the backlog; the round that finds less than that finishes. */
  lemma RoundDrains(c: Config, s: Store, round: Round)
    requires Inv(s) && Stageable(c.locations, s) && Idle(s) && c.stageThreshold >= 1 && Fits(c, s, round)
    ensures var s' := AfterRound(c, s, round);
            && Inv(s') && Stageable(c.locations, s') && Idle(s')
            && (StillSubmitted(s') == [] <==> StillSubmitted(s) == [] || |Backlog(s)| < c.stageThreshold)
            && (StillSubmitted(s') != [] ==> |Backlog(s')| == |Backlog(s)| - c.stageThreshold)
  {
    hide Inv, SubmittedChecked, TransfersProcessed, Drained, SameStaging;
    var issued, s1 := PassDrains(c, s, round.envs);
    var s2, s3 := SubmittedChecked(c, s, round.envs), AfterRound(c, s, round);
    SettleSame(s2, round.order);
    SameStagingJoin(s1, s2, s3);
    DrainedBacklog(s, c.stageThreshold, s1, issued, s3);
    StillStageable(c.locations, s, s1, issued, s3, c.stageThreshold);
  }

  lemma StillStageable(c: seq<Location>, s: Store, s1: Store, issued: nat, s2: Store, room: int)
    requires Stageable(c, s) && Drained(s, StillSubmitted(s), room, s1, issued) && SameStaging(s1, s2)
    ensures Stageable(c, s2)
  {
    hide StageableFor, Open, Wanted, WantedBy, Served, TagsOf;
    WaitingRequests(s);
    forall j | 0 <= j < |s2.requests| && s2.requests[j].status == Submitted && s2.requests[j].action == Stage
      ensures StageableFor(c, s2, s2.requests[j]) {
      assert s2.requests[j] == s1.requests[j];
      StageableStays(c, s, s2, s.requests[j], s2.requests[j]);
    }
  }

  lemma SameLayout(s: Store, s1: Store, s2: Store, room: int, issued: nat)
    requires Drained(s, StillSubmitted(s), room, s1, issued) && SameStaging(s1, s2)
    ensures s2.layout == s.layout && |s2.requests| == |s.requests|
  {
  }

  /** Which requests are still submitted afterwards, and what the others still want. */
  lemma DrainedStatus(s: Store, room: int, s1: Store, issued: nat, s': Store, j: nat)
    requires Drained(s, StillSubmitted(s), room, s1, issued) && SameStaging(s1, s') && j < |s.requests|
    ensures j in StillSubmitted(s') <==> j in StillSubmitted(s) && s1.requests[j].status == Submitted
    ensures j in StillSubmitted(s) && j !in StillSubmitted(s') ==> Wanted(s1, j) == {}
    ensures j in StillSubmitted(s) ==> Wanted(s', j) == Wanted(s1, j)
  {
    hide Wanted, Open, WantedBy, Stageable;
    WaitingRequests(s);
    WaitingRequests(s');
    if j in StillSubmitted(s) {
      SameWanted(s1, s', j);
    }
  }

  lemma SameBacklog(s: Store, s': Store, left: seq<nat>, ids: seq<nat>)
    requires forall j | j in left :: j in ids
    requires forall j | j in ids :: Wanted(s', j) == Wanted(s, j) && (j !in left ==> Wanted(s, j) == {})
    ensures WantedBy(s', left) == WantedBy(s, ids)
  {
    hide Wanted;
    forall id | id in WantedBy(s, ids) ensures id in WantedBy(s', left) {
      var k: nat :| k in ids && id in Wanted(s, k);
      assert id in Wanted(s', k) && k in left;
    }
    forall id | id in WantedBy(s', left) ensures id in WantedBy(s, ids) {
      var k: nat :| k in left && id in Wanted(s', k);
      assert id in Wanted(s, k);
    }
  }

  lemma DrainedBacklog(s: Store, room: int, s1: Store, issued: nat, s': Store)
    requires room >= 1 && Drained(s, StillSubmitted(s), room, s1, issued) && SameStaging(s1, s')
    ensures StillSubmitted(s') == [] <==> StillSubmitted(s) == [] || |Backlog(s)| < room
    ensures StillSubmitted(s') != [] ==> |Backlog(s')| == |Backlog(s)| - room
  {
    hide Wanted, WantedBy, Served, SameStaging, RequestIds;
    var ids, left := StillSubmitted(s), StillSubmitted(s');
    assert |s'.requests| == |s.requests| by {
      SameLayout(s, s1, s', room, issued);
    }
    forall j: nat | j < |s.requests|
      ensures j in left <==> j in ids && s1.requests[j].status == Submitted
      ensures j in ids ==> Wanted(s', j) == Wanted(s1, j) && (j !in left ==> Wanted(s1, j) == {}) {
      DrainedStatus(s, room, s1, issued, s', j);
    }
    forall k | 0 <= k < |left| ensures left[k] in ids {
      assert left[k] in left;
    }
    SameBacklog(s1, s', left, ids);
    if left != [] {
      assert left[0] in left;
    }
  }

  // ---------- The bound ----------

  ghost predicate FitAll(c: Config, s: Store, rounds: seq<Round>)
    decreases |rounds|
  {
    rounds == [] || (Fits(c, s, rounds[0]) && FitAll(c, AfterRound(c, s, rounds[0]), rounds[1..]))
  }

  ghost function AfterRounds(c: Config, s: Store, rounds: seq<Round>): Store
    requires FitAll(c, s, rounds)
    decreases |rounds|
  {
    if rounds == [] then s else AfterRounds(c, AfterRound(c, s, rounds[0]), rounds[1..])
  }

  /** With a threshold T and K distinct files to stage over all submitted requests, a willing storage, and every
      issued transfer done before the next pass, all requests are started after exactly K / T + 1 passes. */
  lemma {:induction false} DrainBound(c: Config, s: Store, rounds: seq<Round>)
    requires Inv(s) && Stageable(c.locations, s) && Idle(s) && c.stageThreshold >= 1
    requires FitAll(c, s, rounds) && StillSubmitted(s) != []
    ensures StillSubmitted(AfterRounds(c, s, rounds)) == [] <==> |rounds| >= |Backlog(s)| / c.stageThreshold + 1
    decreases |rounds|
  {
    hide Inv, Stageable, Idle, Fits, AfterRound, StillSubmitted, Backlog;
    var T, K := c.stageThreshold, |Backlog(s)|;
    if rounds != [] {
      var next := AfterRound(c, s, rounds[0]);
      RoundDrains(c, s, rounds[0]);
      QuotientStep(K, T);
      if K < T {
        NothingLeft(c, next, rounds[1..]);
      } else {
        DrainBound(c, next, rounds[1..]);
      }
    }
  }

  lemma {:induction false} NothingLeft(c: Config, s: Store, rounds: seq<Round>)
    requires Inv(s) && Stageable(c.locations, s) && Idle(s) && c.stageThreshold >= 1
    requires FitAll(c, s, rounds) && StillSubmitted(s) == []
    ensures StillSubmitted(AfterRounds(c, s, rounds)) == []
    decreases |rounds|
  {
    hide Inv, Stageable, Idle, Fits, AfterRound, StillSubmitted, Backlog;
    if rounds != [] {
      RoundDrains(c, s, rounds[0]);
      NothingLeft(c, AfterRound(c, s, rounds[0]), rounds[1..]);
    }
  }
}
