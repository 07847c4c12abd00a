/** When data can be lost: the exact condition on the table of locations and the layout. */
module ColdLoss {
  import opened Options
  import opened ColdTypes
  import opened ColdModel
  import opened Locations
  import opened Catalog
  import opened Manager
  import opened Service
  import opened ColdInvariant
  import opened ColdPreservation
  import opened ColdRuns
  import opened ColdBudget
  import opened ColdDrain
  import opened ColdExact
  import opened ColdStorage

  // ---------- Reachable stores ----------

  /** A store that some run reaches in which no copy is claimed that is not there. */
  ghost predicate Reaches(c: Config, s: Store, s': Store) {
    exists steps :: RunsTo(c, s, steps, s')
  }

  ghost predicate RunsTo(c: Config, s: Store, steps: seq<Step>, s': Store) {
    Possible(c, s, steps) && FaithfulRun(c, s, steps) && End(c, s, steps) == s'
  }

  lemma RunsNowhere(c: Config, s: Store)
    ensures RunsTo(c, s, [], s)
  {
  }

  lemma {:induction false} RunsOn(c: Config, s: Store, steps: seq<Step>, s1: Store, step: Step)
    requires RunsTo(c, s, steps, s1) && Enabled(s1, step) && Faithful(s1, step)
    ensures RunsTo(c, s, steps + [step], Next(c, s1, step))
    decreases |steps|
  {
    hide Enabled, Faithful, Next;
    if steps == [] {
      assert steps + [step] == [step] && [step][1..] == [];
      OneStep(c, s1, step);
    } else {
      RunsOn(c, Next(c, s, steps[0]), steps[1..], s1, step);
      assert (steps + [step])[1..] == steps[1..] + [step];
    }
  }

  lemma OneStep(c: Config, s: Store, step: Step)
    requires Enabled(s, step) && Faithful(s, step)
    ensures RunsTo(c, s, [step], Next(c, s, step))
  {
    hide Enabled, Faithful, Next;
    assert [step][1..] == [];
    RunsNowhere(c, Next(c, s, step));
  }

  /** What the runs below keep: they are reachable, and issue no transfer. */
  ghost predicate Quiet(c: Config, s0: Store, s: Store) {
    Reaches(c, s0, s) && Inv(s) && s.layout == s0.layout && s.transfers == []
  }

  lemma StartsQuiet(c: Config, s0: Store)
    requires Imported(s0)
    ensures Quiet(c, s0, s0)
  {
    ImportedInv(s0);
    RunsNowhere(c, s0);
  }

  lemma StaysQuiet(c: Config, s0: Store, s: Store, step: Step)
    requires Quiet(c, s0, s) && Enabled(s, step) && Faithful(s, step)
    requires Next(c, s, step).layout == s.layout && Next(c, s, step).transfers == []
    ensures Quiet(c, s0, Next(c, s, step))
  {
    hide Inv, Next, RunsTo;
    var steps :| RunsTo(c, s0, steps, s);
    RunsOn(c, s0, steps, s, step);
    NextKeeps(c, s, step);
  }

  // ---------- A storage that knows of one copy and takes no transfer ----------

  function Knows(url: string): Env {
    Env((u: string) => u == url, (id: FileId) => false)
  }

  /** The operation finds the file at that URL. */
  predicate Finds(c: seq<Location>, f: CachedFile, action: Action, url: string) {
    !IsQos(f, action) && Destination(c, f, action) == Some(url)
  }

  function Registered(t: Tags, action: Action, url: string): Tags {
    if action.Archive? then t.(cold := Some(url)) else t.(hotDeleted := false)
  }

  lemma MoveFileFinds(c: seq<Location>, cs: CatState, r: RecordId, f: CachedFile, action: Action, url: string)
    requires !action.ClearHot? && cs.store.transfers == []
    requires f.row.id in cs.store.tags && f.tags == cs.store.tags[f.row.id]
    ensures var s, s' := cs.store, MoveFile(c, cs, r, f, action, SERVICE_OPTIONS, Knows(url)).1.store;
            s' == s.(tags := if Finds(c, f, action, url)
                             then s.tags[f.row.id := Registered(f.tags, action, url)] else s.tags)
  {
    hide Destination, IsQos;
  }

  ghost predicate FindsFile(c: seq<Location>, files: seq<CachedFile>, action: Action, url: string, id: FileId) {
    exists k :: 0 <= k < |files| && files[k].row.id == id && Finds(c, files[k], action, url)
  }

  lemma FindsHead(c: seq<Location>, files: seq<CachedFile>, action: Action, url: string, id: FileId)
    requires files != []
    ensures FindsFile(c, files, action, url, id) <==>
              (files[0].row.id == id && Finds(c, files[0], action, url)) || FindsFile(c, files[1..], action, url, id)
  {
    hide Finds;
    assert files == [files[0]] + files[1..];
    if FindsFile(c, files[1..], action, url, id) {
      var k :| 0 <= k < |files[1..]| && files[1..][k].row.id == id && Finds(c, files[1..][k], action, url);
      assert files[k + 1].row.id == id && Finds(c, files[k + 1], action, url);
    }
  }

  /** The store after the listed files were looked for at that URL, seen at one file. */
  ghost predicate FoundExactly(c: seq<Location>, s: Store, files: seq<CachedFile>, action: Action, url: string, id: FileId,
                               s': Store)
  {
    && s' == s.(tags := s'.tags)
    && TagsOf(s'.tags, id)
       == if FindsFile(c, files, action, url, id) then Registered(TagsOf(s.tags, id), action, url) else TagsOf(s.tags, id)
  }

  lemma FoundNothing(c: seq<Location>, s: Store, action: Action, url: string, id: FileId)
    ensures FoundExactly(c, s, [], action, url, id, s)
  {
  }

  lemma FoundNext(c: seq<Location>, s: Store, s1: Store, files: seq<CachedFile>, action: Action, url: string, id: FileId,
                  s': Store)
    requires files != [] && files[0].tags == TagsOf(s.tags, files[0].row.id)
    requires s1 == s.(tags := if Finds(c, files[0], action, url)
                              then s.tags[files[0].row.id := Registered(files[0].tags, action, url)] else s.tags)
    requires FoundExactly(c, s1, files[1..], action, url, id, s')
    ensures FoundExactly(c, s, files, action, url, id, s')
  {
    hide Finds, FindsFile;
    FindsHead(c, files, action, url, id);
  }

  ghost predicate Known(s: Store, files: seq<CachedFile>) {
    forall k | 0 <= k < |files| :: files[k].row.id in s.tags
  }

  lemma {:induction false} MoveFilesFind(c: seq<Location>, run: MoveRun, r: RecordId, files: seq<CachedFile>, action: Action,
                                         url: string, rows: seq<FileRow>, id: FileId)
    requires !action.ClearHot? && run.cs.store.transfers == []
    requires Lists(files, rows, run.cs.store.tags) && Known(run.cs.store, files)
    ensures FoundExactly(c, run.cs.store, files, action, url, id,
                         MoveFiles(c, run, r, files, action, SERVICE_OPTIONS, Knows(url), 0).cs.store)
    decreases |files|
  {
    hide MoveFile, FoundExactly, Finds, Destination, IsQos;
    if files == [] {
      FoundNothing(c, run.cs.store, action, url, id);
    } else {
      var s, next := run.cs.store, MoveStep(c, run, r, files[0], action, SERVICE_OPTIONS, Knows(url));
      assert files[0] == FreshFile(files[0].row, s.tags) && files[0].row.id in s.tags;
      MoveFileFinds(c, run.cs, r, files[0], action, url);
      ListsTail(files, rows, s.tags, next.cs.store.tags);
      assert forall k | 0 <= k < |files[1..]| :: files[1..][k] == files[k + 1];
      MoveFilesFind(c, next, r, files[1..], action, url, rows, id);
      FoundNext(c, s, next.cs.store, files, action, url, id,
                MoveFiles(c, next, r, files[1..], action, SERVICE_OPTIONS, Knows(url), 0).cs.store);
    }
  }

  // ---------- Every file is listed ----------

  lemma {:induction false} AllNamed(indices: seq<IndexRow>)
    ensures NamedRows(indices, "") == IndexRows(indices)
  {
    if indices != [] {
      AllNamed(indices[1..]);
    }
  }

  /** Where a file is in the list of the whole record. */
  lemma Position(s: Store, r: RecordId, row: FileRow) returns (k: nat)
    requires Inv(s) && Holds(s.layout, r, row)
    ensures r in s.records && k < |NamedFiles(s.records[r], "")|
    ensures NamedFiles(s.records[r], "")[k] == FreshFile(row, s.tags)
  {
    RecordKnown(s, r);
    SelectedRows(s, r, "");
    RecordAgrees(s, r);
    SelectedMatch(s, r, "");
    AllNamed(s.layout[r].indices);
    hide Inv, Agrees, NamedFiles, FreshFile;
    var files, rows := NamedFiles(s.records[r], ""), SelectedBy(s.layout[r], "");
    k :| 0 <= k < |rows| && rows[k] == row;
    assert files[k] == FreshFile(files[k].row, s.tags);
  }

  lemma RecordKnown(s: Store, r: RecordId)
    requires Inv(s) && r in s.layout
    ensures r in s.records
  {
  }

  /** The one entry of a file. */
  lemma OnlyEntry(s: Store, r: RecordId, row: FileRow, files: seq<CachedFile>, k: nat)
    requires r in s.layout && Lists(files, Rows(s.layout[r]), s.tags) && k < |files| && files[k].row.id == row.id
    requires OneVersion(s.layout) && Holds(s.layout, r, row)
    ensures files[k] == FreshFile(row, s.tags)
  {
    assert Holds(s.layout, r, files[k].row);
  }

  // ---------- The two operations, seen at the held files ----------

  /** What looking for the files of a record at a URL does to the tags of a held file. */
  ghost predicate Looked(c: seq<Location>, s: Store, r: RecordId, action: Action, url: string, s': Store) {
    && s' == s.(tags := s'.tags, records := s'.records)
    && forall q, row | Holds(s.layout, q, row) ::
         TagsOf(s'.tags, row.id)
           == if q == r && Finds(c, FreshFile(row, s.tags), action, url)
              then Registered(TagsOf(s.tags, row.id), action, url) else TagsOf(s.tags, row.id)
  }

  lemma LookedAt(c: seq<Location>, s: Store, r: RecordId, action: Action, url: string, q: RecordId, row: FileRow)
    requires Inv(s) && s.transfers == [] && r in s.layout && !action.ClearHot? && Holds(s.layout, q, row)
    ensures r in s.records
    ensures FindsFile(c, NamedFiles(s.records[r], ""), action, url, row.id) <==>
              q == r && Finds(c, FreshFile(row, s.tags), action, url)
  {
    RecordKnown(s, r);
    SelectedRows(s, r, "");
    var files := NamedFiles(s.records[r], "");
    if q == r {
      var k := Position(s, r, row);
      assert files[k].row.id == row.id;
    }
    hide NamedFiles, Finds, FreshFile;
    if k :| 0 <= k < |files| && files[k].row.id == row.id && Finds(c, files[k], action, url) {
      assert Holds(s.layout, r, files[k].row);
      OnlyEntry(s, r, row, files, k);
    }
  }

  lemma RecordLooked(c: seq<Location>, s: Store, r: RecordId, action: Action, url: string)
    requires Inv(s) && s.transfers == [] && r in s.layout && !action.ClearHot?
    ensures Looked(c, s, r, action, url,
                   RecordMoved(c, CatState(s, []), r, 0, action, SERVICE_OPTIONS, Knows(url), 0, "").0.store)
  {
    hide Inv, MoveFiles, NamedFiles, Finds, FindsFile, RefreshAll, Lists, Rows, Holds, FreshFile, TagsOf;
    RecordKnown(s, r);
    SelectedRows(s, r, "");
    var files, run := NamedFiles(s.records[r], ""), MoveRun(CatState(s, []), [], false, 0);
    var s' := RecordMoved(c, CatState(s, []), r, 0, action, SERVICE_OPTIONS, Knows(url), 0, "").0.store;
    assert SelectFiles(s.records[r], 0, "") == files;
    MoveFilesFind(c, run, r, files, action, url, Rows(s.layout[r]), 0);
    forall q, row | Holds(s.layout, q, row)
      ensures TagsOf(s'.tags, row.id)
           == if q == r && Finds(c, FreshFile(row, s.tags), action, url)
              then Registered(TagsOf(s.tags, row.id), action, url) else TagsOf(s.tags, row.id) {
      MoveFilesFind(c, run, r, files, action, url, Rows(s.layout[r]), row.id);
      LookedAt(c, s, r, action, url, q, row);
    }
  }

  /** A step that looks for the files of a record at a URL where there is a copy. */
  lemma LookStep(c: Config, s0: Store, s: Store, r: RecordId, action: Action, url: string) returns (s': Store)
    requires Quiet(c, s0, s) && r in s.layout && !action.ClearHot? && url in s.disk
    ensures Quiet(c, s0, s') && Looked(c.locations, s, r, action, url, s')
  {
    hide Inv, Looked, RecordMoved, Reaches;
    var step := Move(action, r, 0, SERVICE_OPTIONS, Knows(url), 0, "");
    s' := Next(c, s, step);
    RecordLooked(c.locations, s, r, action, url);
    assert s' == s.(tags := s'.tags, records := s'.records) by { LookedTables(c.locations, s, r, action, url, s'); }
    StaysQuiet(c, s0, s, step);
  }

  lemma LookedTables(c: seq<Location>, s: Store, r: RecordId, action: Action, url: string, s': Store)
    requires Looked(c, s, r, action, url, s')
    ensures s' == s.(tags := s'.tags, records := s'.records)
  {
  }

  lemma AppearStep(c: Config, s0: Store, s: Store, url: string) returns (s': Store)
    requires Quiet(c, s0, s)
    ensures Quiet(c, s0, s') && s' == s.(disk := s.disk + {url})
  {
    hide Inv, Reaches;
    s' := Next(c, s, Appear(url));
    StaysQuiet(c, s0, s, Appear(url));
  }

  /** A step that removes the hot copies at one URL, going through the first files of a record, or through all. */
  lemma RemoveStep(c: Config, s0: Store, s: Store, r: RecordId, limit: nat, url: string) returns (s': Store)
    requires Quiet(c, s0, s) && r in s.records
    ensures Quiet(c, s0, s')
    ensures var files := SelectFiles(s.records[r], limit, "");
            && s'.disk == s.disk - DeletedUrls(files, false, (u: string) => u == url)
            && forall id :: TagsOf(s'.tags, id)
                 == if ClearsFile(files, id) then TagsOf(s.tags, id).(hotDeleted := true) else TagsOf(s.tags, id)
  {
    hide Inv, RecordCleared, Reaches, SelectFiles, DeletedUrls, ClearsFile, TagsOf;
    var step := Clear(r, limit, true, false, (u: string) => u == url, "");
    s' := Next(c, s, step);
    var files := SelectFiles(s.records[r], limit, "");
    ClearExact(s, r, limit, true, false, (u: string) => u == url, "", 0);
    forall id
      ensures TagsOf(s'.tags, id)
           == if ClearsFile(files, id) then TagsOf(s.tags, id).(hotDeleted := true) else TagsOf(s.tags, id) {
      ClearExact(s, r, limit, true, false, (u: string) => u == url, "", id);
    }
    assert s'.layout == s.layout by { ClearedLayout(s, r, limit, url); }
    StaysQuiet(c, s0, s, step);
  }

  lemma ClearedLayout(s: Store, r: RecordId, limit: int, url: string)
    ensures RecordCleared(CatState(s, []), r, limit, true, false, (u: string) => u == url, "").0.store.layout == s.layout
  {
    hide ClearFiles, RefreshAll, SelectFiles;
    if r in s.records {
      ClearFilesLayout(CatState(s, []), r, SelectFiles(s.records[r], limit, ""), true, false,
                       (u: string) => u == url, false);
    }
  }

  lemma {:induction false} ClearFilesLayout(cs: CatState, r: RecordId, files: seq<CachedFile>, force: bool, dry: bool,
                                            removable: string -> bool, cleared: bool)
    ensures ClearFiles(cs, r, files, force, dry, removable, cleared).0.store.layout == cs.store.layout
    decreases |files|
  {
    hide IsQos;
    if files != [] {
      if !IsQos(files[0], Archive) || !IsQos(files[0], Stage) {
        ClearFilesLayout(cs, r, files[1..], force, dry, removable, cleared);
      } else {
        var cs0 := cs.(store := RemoveHot(cs.store, files[0].row.uri, dry, removable));
        var (ok, cs1) := MarkHotDeleted(cs0, r, files[0].row.id, force);
        if ok { ClearFilesLayout(cs1, r, files[1..], force, dry, removable, true); }
      }
    }
  }

  // ---------- What the steps do to one file ----------

  lemma ImportedTags(s: Store, r: RecordId, row: FileRow)
    requires Imported(s) && Holds(s.layout, r, row)
    ensures TagsOf(s.tags, row.id) == Tags(None, false)
  {
  }

  /** A file without cold copy that is looked for at its cold URL gets its tag. */
  lemma LooksArchived(c: seq<Location>, s: Store, r: RecordId, url: string, s': Store, row: FileRow)
    requires Looked(c, s, r, Archive, url, s') && Holds(s.layout, r, row)
    requires Archivable(c, row.uri) && FindUrl(c, Archive, row.uri) == Some(url)
    ensures var t := TagsOf(s.tags, row.id);
            TagsOf(s'.tags, row.id) == if t.cold.None? then t.(cold := Some(url)) else t
  {
    hide FindUrl, Holds;
  }

  lemma LooksStaged(c: seq<Location>, s: Store, r: RecordId, url: string, s': Store, row: FileRow)
    requires Looked(c, s, r, Stage, url, s') && Holds(s.layout, r, row) && url != ""
    requires var t := TagsOf(s.tags, row.id); t.hotDeleted && t.cold.Some? && FindUrl(c, Stage, t.cold.value) == Some(url)
    ensures TagsOf(s'.tags, row.id) == TagsOf(s.tags, row.id).(hotDeleted := false)
  {
    hide FindUrl, Holds;
  }

  /** Looking for archive copies leaves cold tags and marks alone. */
  lemma LooksKept(c: seq<Location>, s: Store, r: RecordId, url: string, s': Store, q: RecordId, row: FileRow)
    requires Looked(c, s, r, Archive, url, s') && Holds(s.layout, q, row)
    ensures TagsOf(s'.tags, row.id).hotDeleted == TagsOf(s.tags, row.id).hotDeleted
    ensures TagsOf(s.tags, row.id).cold.Some? || q != r ==> TagsOf(s'.tags, row.id) == TagsOf(s.tags, row.id)
  {
    hide Destination, Holds;
  }

  /** The first files of a record, or all of them. */
  predicate Within(k: nat, limit: nat) {
    limit == 0 || k < limit
  }

  /** A file in both places goes, when its place in the list is looked at. */
  lemma Clears(s: Store, r: RecordId, row: FileRow, k: nat, limit: nat)
    requires r in s.records && k < |NamedFiles(s.records[r], "")| && Within(k, limit)
    requires NamedFiles(s.records[r], "")[k] == FreshFile(row, s.tags)
    requires TagsOf(s.tags, row.id).cold.Some? && !TagsOf(s.tags, row.id).hotDeleted
    ensures var files := SelectFiles(s.records[r], limit, "");
            && ClearsFile(files, row.id)
            && DeletedUrls(files, false, (u: string) => u == row.uri) == {row.uri}
  {
    hide NamedFiles;
    var files := SelectFiles(s.records[r], limit, "");
    assert files[k] == FreshFile(row, s.tags) && Clearable(files[k]);
    assert row.uri in DeletedUrls(files, false, (u: string) => u == row.uri);
  }

  /** A removal does not touch the files of other records, or those further down the list. */
  lemma Spares(s: Store, r: RecordId, limit: nat, q: RecordId, other: FileRow, j: nat)
    requires Inv(s) && r in s.records && Holds(s.layout, q, other)
    requires q == r ==> j < |NamedFiles(s.records[r], "")| && NamedFiles(s.records[r], "")[j] == FreshFile(other, s.tags)
                        && !Within(j, limit)
    ensures !ClearsFile(SelectFiles(s.records[r], limit, ""), other.id)
  {
    SelectedRows(s, r, "");
    hide NamedFiles, Clearable, FreshFile;
    var all, files := NamedFiles(s.records[r], ""), SelectFiles(s.records[r], limit, "");
    if k :| 0 <= k < |files| && files[k].row.id == other.id && Clearable(files[k]) {
      assert files[k] == all[k] && Holds(s.layout, r, all[k].row);
      OwnerOf(s, r, all[k].row, q, other);
    }
  }

  lemma OwnerOf(s: Store, r: RecordId, row: FileRow, q: RecordId, other: FileRow)
    requires Inv(s) && Holds(s.layout, r, row) && Holds(s.layout, q, other) && row.id == other.id
    ensures q == r && row == other
  {
  }

  // ---------- Three runs that lose a copy ----------

  /** The cold URL leads to another place, where a copy appears: staging takes it for the file's own. */
  lemma Strands(c: Config, s0: Store, r: RecordId, row: FileRow, away: string) returns (s': Store)
    requires Imported(s0) && Holds(s0.layout, r, row) && Archivable(c.locations, row.uri)
    requires FindUrl(c.locations, Stage, FindUrl(c.locations, Archive, row.uri).value) == Some(away)
    requires away !in {"", row.uri}
    ensures Quiet(c, s0, s') && !TagsOf(s'.tags, row.id).hotDeleted && row.uri !in s'.disk
  {
    hide Reaches, Inv, Looked, Imported, FindUrl, Holds, NamedFiles, SelectFiles, DeletedUrls, ClearsFile, TagsOf, FreshFile;
    var cold := FindUrl(c.locations, Archive, row.uri).value;
    StartsQuiet(c, s0);
    ImportedTags(s0, r, row);
    var s1 := AppearStep(c, s0, s0, cold);
    var s2 := AppearStep(c, s0, s1, away);
    HeldRecord(s0, r, row);
    var s3 := LookStep(c, s0, s2, r, Archive, cold);
    LooksArchived(c.locations, s2, r, cold, s3, row);
    var k := Position(s3, r, row);
    var s4 := RemoveStep(c, s0, s3, r, 0, row.uri);
    Clears(s3, r, row, k, 0);
    LookedTables(c.locations, s2, r, Archive, cold, s3);
    s' := LookStep(c, s0, s4, r, Stage, away);
    LooksStaged(c.locations, s4, r, away, s', row);
    LookedTables(c.locations, s4, r, Stage, away, s');
  }

  lemma HeldRecord(s: Store, r: RecordId, row: FileRow)
    requires Holds(s.layout, r, row)
    ensures r in s.layout
  {
  }

  /** Both copies are found: each file gets its cold tag. */
  lemma TagsBoth(c: Config, s0: Store, s: Store, r: RecordId, row: FileRow, q: RecordId, other: FileRow,
                 url: string, away: string) returns (s': Store)
    requires Quiet(c, s0, s) && Holds(s.layout, r, row) && Holds(s.layout, q, other) && url in s.disk && away in s.disk
    requires TagsOf(s.tags, row.id) == Tags(None, false) && !TagsOf(s.tags, other.id).hotDeleted
    requires Archivable(c.locations, row.uri) && FindUrl(c.locations, Archive, row.uri) == Some(url)
    requires Archivable(c.locations, other.uri) && FindUrl(c.locations, Archive, other.uri) == Some(away)
    ensures Quiet(c, s0, s') && TagsOf(s'.tags, row.id).cold == Some(url)
    ensures TagsOf(s'.tags, other.id).cold.Some? && !TagsOf(s'.tags, other.id).hotDeleted
  {
    hide Reaches, Inv, Looked, FindUrl, Holds, TagsOf;
    HeldRecord(s, r, row);
    HeldRecord(s, q, other);
    var s1 := LookStep(c, s0, s, r, Archive, url);
    LooksArchived(c.locations, s, r, url, s1, row);
    LooksKept(c.locations, s, r, url, s1, q, other);
    LookedTables(c.locations, s, r, Archive, url, s1);
    s' := LookStep(c, s0, s1, q, Archive, away);
    LooksArchived(c.locations, s1, q, away, s', other);
    LooksKept(c.locations, s1, q, away, s', r, row);
  }

  lemma HotCopy(s: Store, r: RecordId, row: FileRow)
    requires HotCopies(s) && Holds(s.layout, r, row)
    ensures row.uri in s.disk
  {
  }

  /** The cold URL of a file is the hot URL of a file that can be archived: removing that one takes the copy away. */
  lemma Overlaps(c: Config, s0: Store, r: RecordId, row: FileRow, q: RecordId, other: FileRow) returns (s': Store)
    requires Imported(s0) && HotCopies(s0) && Holds(s0.layout, r, row) && Holds(s0.layout, q, other)
    requires Archivable(c.locations, row.uri) && Archivable(c.locations, other.uri)
    requires FindUrl(c.locations, Archive, row.uri) == Some(other.uri)
    ensures Quiet(c, s0, s') && TagsOf(s'.tags, row.id).cold == Some(other.uri) && other.uri !in s'.disk
  {
    hide Reaches, Inv, Looked, Imported, HotCopies, FindUrl, Holds, NamedFiles, SelectFiles, DeletedUrls, ClearsFile, TagsOf;
    hide FreshFile;
    var away := FindUrl(c.locations, Archive, other.uri).value;
    HotCopy(s0, q, other);
    StartsQuiet(c, s0);
    ImportedTags(s0, r, row);
    ImportedTags(s0, q, other);
    var s1 := AppearStep(c, s0, s0, away);
    var s2 := TagsBoth(c, s0, s1, r, row, q, other, other.uri, away);
    var k := Position(s2, q, other);
    s' := RemoveStep(c, s0, s2, q, 0, other.uri);
    Clears(s2, q, other, k, 0);
  }

  /** Two files share a hot URL that can be archived: removing one takes the hot copy of the other away. The one that is
      kept is in another record, or further down the list. */
  lemma Shares(c: Config, s0: Store, r: RecordId, row: FileRow, q: RecordId, other: FileRow) returns (s': Store, x: FileRow)
    requires Imported(s0) && Holds(s0.layout, r, row) && Holds(s0.layout, q, other) && other.uri == row.uri
    requires Archivable(c.locations, row.uri) && (q != r || other != row)
    ensures Quiet(c, s0, s') && x in {row, other} && !TagsOf(s'.tags, x.id).hotDeleted && x.uri !in s'.disk
  {
    hide Reaches, Inv, Looked, Imported, FindUrl, Holds, NamedFiles, SelectFiles, DeletedUrls, ClearsFile, TagsOf;
    var cold := FindUrl(c.locations, Archive, row.uri).value;
    StartsQuiet(c, s0);
    ImportedTags(s0, r, row);
    ImportedTags(s0, q, other);
    HeldRecord(s0, r, row);
    var s1 := AppearStep(c, s0, s0, cold);
    var s2 := LookStep(c, s0, s1, r, Archive, cold);
    LooksArchived(c.locations, s1, r, cold, s2, row);
    LooksKept(c.locations, s1, r, cold, s2, q, other);
    var i := Position(s2, r, row);
    if q == r {
      LooksArchived(c.locations, s1, r, cold, s2, other);
      var j := Position(s2, r, other);
      assert i != j by { EntryOf(row, other, s2.tags); }
      if i < j {
        x := other;
        s' := Takes(c, s0, s2, r, row, i, i + 1, q, other, j);
      } else {
        x := row;
        s' := Takes(c, s0, s2, r, other, j, j + 1, r, row, i);
      }
    } else {
      x := other;
      s' := Takes(c, s0, s2, r, row, i, 0, q, other, 0);
    }
  }

  lemma EntryOf(row: FileRow, other: FileRow, tags: map<FileId, Tags>)
    ensures FreshFile(row, tags) == FreshFile(other, tags) ==> row == other
  {
  }

  lemma Takes(c: Config, s0: Store, s: Store, r: RecordId, row: FileRow, k: nat, limit: nat, q: RecordId,
              other: FileRow, j: nat) returns (s': Store)
    requires Quiet(c, s0, s) && r in s.records && Holds(s.layout, q, other) && other.uri == row.uri && Within(k, limit)
    requires k < |NamedFiles(s.records[r], "")| && NamedFiles(s.records[r], "")[k] == FreshFile(row, s.tags)
    requires TagsOf(s.tags, row.id).cold.Some? && !TagsOf(s.tags, row.id).hotDeleted && !TagsOf(s.tags, other.id).hotDeleted
    requires q == r ==> j < |NamedFiles(s.records[r], "")| && NamedFiles(s.records[r], "")[j] == FreshFile(other, s.tags)
                        && !Within(j, limit)
    ensures Quiet(c, s0, s') && !TagsOf(s'.tags, other.id).hotDeleted && other.uri !in s'.disk
  {
    hide Reaches, Inv, Holds, NamedFiles, SelectFiles, DeletedUrls, ClearsFile, TagsOf, FreshFile;
    s' := RemoveStep(c, s0, s, r, limit, row.uri);
    Clears(s, r, row, k, limit);
    Spares(s, r, limit, q, other, j);
  }

  // ---------- The exact condition ----------

  ghost predicate AllKept(s: Store) {
    forall r, row | Holds(s.layout, r, row) :: Kept(s, row)
  }

  lemma KeptWhenReversible(c: Config, s0: Store, s: Store)
    requires Imported(s0) && HotCopies(s0) && Reversible(c.locations, s0.layout) && Reaches(c, s0, s)
    ensures AllKept(s)
  {
    hide Imported, HotCopies, Reversible, Kept, Holds;
    var steps :| RunsTo(c, s0, steps, s);
    forall r, row | Holds(s.layout, r, row) ensures Kept(s, row) {
      NoDataLoss(c, s0, steps, r, row);
    }
  }

  lemma NotKept(c: Config, s0: Store, s: Store, r: RecordId, row: FileRow)
    requires Quiet(c, s0, s) && Holds(s0.layout, r, row)
    requires var t := TagsOf(s.tags, row.id);
             (!t.hotDeleted && row.uri !in s.disk) || (t.cold.Some? && t.cold.value !in s.disk)
    ensures Reaches(c, s0, s) && !AllKept(s)
  {
    hide Reaches, Inv, Holds;
    assert Kept(s, row) ==> row.id in s.tags;
  }

  /** On a table that is not reversible, some faithful run loses a copy. */
  lemma LosesSome(c: Config, s0: Store, r: RecordId, row: FileRow) returns (s: Store)
    requires Imported(s0) && HotCopies(s0) && Holds(s0.layout, r, row) && !ReversibleRow(c.locations, s0.layout, r, row)
    ensures Reaches(c, s0, s) && !AllKept(s)
  {
    hide Reaches, Quiet, AllKept, Imported, HotCopies, FindUrl, TagsOf, Holds;
    if !LeadsHome(c.locations, row.uri) {
      var away := FindUrl(c.locations, Stage, FindUrl(c.locations, Archive, row.uri).value).value;
      s := Strands(c, s0, r, row, away);
      NotKept(c, s0, s, r, row);
    } else if q, other :| Holds(s0.layout, q, other) && other.uri == row.uri && !(q == r && other == row) {
      var x: FileRow;
      s, x := Shares(c, s0, r, row, q, other);
      NotKept(c, s0, s, if x == row then r else q, x);
    } else {
      var q, other :| Holds(s0.layout, q, other) && Archivable(c.locations, other.uri)
                      && FindUrl(c.locations, Archive, row.uri) == Some(other.uri);
      s := Overlaps(c, s0, r, row, q, other);
      NotKept(c, s0, s, r, row);
    }
  }

  /** No data loss, exactly: from imported records, every faithful run keeps every file if and only if all hot copies are
      there in the beginning and the table of locations is reversible. */
  lemma NoDataLossExactly(c: Config, s0: Store)
    requires Imported(s0)
    ensures (forall s | Reaches(c, s0, s) :: AllKept(s)) <==> HotCopies(s0) && Reversible(c.locations, s0.layout)
  {
    if HotCopies(s0) && Reversible(c.locations, s0.layout) {
      forall s | Reaches(c, s0, s) ensures AllKept(s) {
        KeptWhenReversible(c, s0, s);
      }
    } else if !HotCopies(s0) {
      assert Reaches(c, s0, s0) && !AllKept(s0) by { MissingAtFirst(c, s0); }
    } else {
      hide Imported, HotCopies, ReversibleRow, Reaches, AllKept, Holds;
      var r, row :| Holds(s0.layout, r, row) && !ReversibleRow(c.locations, s0.layout, r, row);
      var s := LosesSome(c, s0, r, row);
    }
  }

  lemma MissingAtFirst(c: Config, s0: Store)
    requires Imported(s0) && !HotCopies(s0)
    ensures Reaches(c, s0, s0) && !AllKept(s0)
  {
    hide Inv, RunsTo;
    StartsQuiet(c, s0);
    var r, row :| Holds(s0.layout, r, row) && row.uri !in s0.disk;
    ImportedTags(s0, r, row);
    NotKept(c, s0, s0, r, row);
  }

  // ---------- Nested cold paths ----------

  const NESTED := [Location("/c", "/a"), Location("/c/b", "/d")]
  const STRANDED := FileRow(7, "/a/b", 1)

  /** One record with one file, freshly imported. */
  function OneRecord(): Store {
    var tags := map[7 := Tags(None, false)];
    var files := FreshFiles([STRANDED], tags);
    Store(map[1 := Layout([STRANDED], [])], tags, map[1 := Record(files, [], Details(files, []), Online)], [], [], {"/a/b"})
  }

  lemma OneRecordImported()
    ensures Imported(OneRecord()) && HotCopies(OneRecord()) && Holds(OneRecord().layout, 1, STRANDED)
  {
    var s := OneRecord();
    assert Rows(s.layout[1]) == [STRANDED];
    assert forall r, o | Holds(s.layout, r, o) :: r == 1 && o == STRANDED;
  }

  /** With nested cold paths, a run from one imported record, in which every answer is honest, ends with the file not
      marked as removed although its hot copy is missing: staging took the copy at "/d" for it. */
  lemma NestedTableStrands(c: Config) returns (s: Store)
    requires c.locations == NESTED
    ensures Reaches(c, OneRecord(), s) && Holds(s.layout, 1, STRANDED)
    ensures !TagsOf(s.tags, STRANDED.id).hotDeleted && STRANDED.uri !in s.disk
  {
    hide Reaches, Inv, Imported, HotCopies, FindUrl;
    OneRecordImported();
    NestedColdPaths();
    s := Strands(c, OneRecord(), 1, STRANDED, "/d");
  }
}
