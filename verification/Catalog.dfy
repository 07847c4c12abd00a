/** The catalog: tag updates, the queue of records to refresh, and the refresh itself. */
module Catalog {
  import opened Options
  import opened ColdTypes
  import opened ColdModel

  /** The database together with the catalog's in-memory queue. */
  datatype CatState = CatState(store: Store, queue: seq<RecordId>)

  // ---------- Specification functions ----------

  function Enqueue(queue: seq<RecordId>, r: RecordId): seq<RecordId> {
    if r in queue then queue else queue + [r]
  }

  /** Registers a copy: archiving sets the cold URL, staging drops the hot_deleted tag. */
  function CopyAdded(cs: CatState, r: RecordId, id: FileId, action: Action, url: string): CatState {
    if id !in cs.store.tags || action.ClearHot? then cs
    else
      var t := cs.store.tags[id];
      var t' := if action.Archive? then t.(cold := Some(url)) else t.(hotDeleted := false);
      CatState(cs.store.(tags := cs.store.tags[id := t']), Enqueue(cs.queue, r))
  }

  /** Marks the hot copy as removed; a tag that already exists is accepted only with force. */
  function MarkHotDeleted(cs: CatState, r: RecordId, id: FileId, force: bool): (bool, CatState) {
    if id !in cs.store.tags then (false, cs)
    else
      var t := cs.store.tags[id];
      if t.hotDeleted then (force, if force then cs.(queue := Enqueue(cs.queue, r)) else cs)
      else (true, CatState(cs.store.(tags := cs.store.tags[id := t.(hotDeleted := true)]), Enqueue(cs.queue, r)))
  }

  /** The record rebuilt from the tag table; an empty direct bucket leaves the cached list alone. */
  function Refreshed(s: Store, r: RecordId): Record
    requires r in s.layout && r in s.records
  {
    var layout := s.layout[r];
    var files := if layout.direct == [] then s.records[r].files else FreshFiles(layout.direct, s.tags);
    Rechecked(s, r, s.records[r].(files := files, indices := FreshIndices(layout.indices, s.tags)))
  }

  function RefreshRecord(s: Store, r: RecordId): Store {
    if r in s.layout && r in s.records then s.(records := s.records[r := Refreshed(s, r)]) else s
  }

  function RefreshAll(s: Store, queue: seq<RecordId>): (r: Store)
    ensures r == s.(records := r.records) && r.records.Keys == s.records.Keys
    decreases |queue|
  {
    if queue == [] then s else RefreshAll(RefreshRecord(s, queue[0]), queue[1..])
  }

  /** The queue is drained from the front. */
  function Reindexed(cs: CatState): CatState {
    CatState(RefreshAll(cs.store, cs.queue), [])
  }

  function SaveAvailability(s: Store, r: RecordId): (saved: Store)
    ensures saved == s.(records := saved.records) && saved.records.Keys == s.records.Keys
  {
    if r in s.records then s.(records := s.records[r := Rechecked(s, r, s.records[r])]) else s
  }

  // ---------- The tables, updated in place ----------

  class Database {
    const layout: map<RecordId, Layout>
    var tags: map<FileId, Tags>
    var records: map<RecordId, Record>
    var transfers: seq<Transfer>
    var requests: seq<Request>
    var disk: set<string>

    constructor (s: Store)
      ensures View() == s
    {
      layout := s.layout;
      tags, records, transfers, requests, disk := s.tags, s.records, s.transfers, s.requests, s.disk;
    }

    function View(): Store
      reads this
    {
      Store(layout, tags, records, transfers, requests, disk)
    }
  }

  lemma CountNext(c: Counts, files: seq<CachedFile>, f: CachedFile)
    ensures CountOnto(c, files + [f]) == Bump(CountOnto(c, files), f.availability)
  {
    assert (files + [f])[..|files|] == files;
  }

  lemma SizeNext(rows: seq<FileRow>, i: nat)
    requires i < |rows|
    ensures TotalSize(rows[..i + 1]) == TotalSize(rows[..i]) + rows[i].size
  {
    assert rows[..i + 1][..i] == rows[..i];
  }

  lemma MergeNext(indices: seq<CachedIndex>, i: nat)
    requires i < |indices|
    ensures MergeIndices(indices[..i + 1]) == Merge(MergeIndices(indices[..i]), indices[i].availability)
  {
    assert indices[..i + 1][..i] == indices[..i];
  }

  lemma NothingCounted(c: Counts)
    ensures CountOnto(c, []) == c && TotalSize([]) == 0 && MergeIndices([]) == map[]
  {
  }

  /** The counters of one file index, built while its bucket is read. */
  method BuildIndex(row: IndexRow, tags: map<FileId, Tags>) returns (index: CachedIndex)
    ensures index == FreshIndex(row, tags)
  {
    hide CountOnto, TotalSize;
    NothingCounted(map[]);
    var availability: Counts := map[];
    var number, size := 0, 0;
    var files: seq<CachedFile> := [];
    for i := 0 to |row.files|
      invariant |files| == number == i && size == TotalSize(row.files[..i])
      invariant forall k | 0 <= k < i :: files[k] == FreshFile(row.files[k], tags)
      invariant availability == CountOnto(map[], files)
    {
      var f := FreshFile(row.files[i], tags);
      SizeNext(row.files, i);
      CountNext(map[], files, f);
      files := files + [f];
      size := size + row.files[i].size;
      number := number + 1;
      if f.availability !in availability {
        availability := availability[f.availability := 0];
      }
      availability := availability[f.availability := availability[f.availability] + 1];
    }
    assert row.files[..|row.files|] == row.files;
    assert files == FreshFiles(row.files, tags);
    index := CachedIndex(row.key, availability, number, size, files);
  }

  method BuildIndices(rows: seq<IndexRow>, tags: map<FileId, Tags>) returns (indices: seq<CachedIndex>)
    ensures indices == FreshIndices(rows, tags)
  {
    indices := [];
    for i := 0 to |rows|
      invariant |indices| == i
      invariant forall k | 0 <= k < i :: indices[k] == FreshIndex(rows[k], tags)
    {
      var index := BuildIndex(rows[i], tags);
      indices := indices + [index];
    }
  }

  /** The availability of a record, from the counters of its indices and of its direct files. */
  method CheckAvailability(s: Store, r: RecordId, record: Record) returns (checked: Record)
    ensures checked == Rechecked(s, r, record)
  {
    hide CountOnto, MergeIndices;
    NothingCounted(MergeIndices(record.indices));
    var details: Counts := map[];
    for i := 0 to |record.indices|
      invariant details == MergeIndices(record.indices[..i])
    {
      MergeNext(record.indices, i);
      details := Merge(details, record.indices[i].availability);
    }
    assert record.indices[..|record.indices|] == record.indices;
    for i := 0 to |record.files|
      invariant details == CountOnto(MergeIndices(record.indices), record.files[..i])
    {
      assert record.files[..i + 1] == record.files[..i] + [record.files[i]];
      CountNext(MergeIndices(record.indices), record.files[..i], record.files[i]);
      var a := record.files[i].availability;
      if a !in details {
        details := details[a := 0];
      }
      details := details[a := details[a] + 1];
    }
    assert record.files[..|record.files|] == record.files;
    checked := record.(details := details, availability := CheckedAvailability(s, r, details));
  }

  class CatalogApi {
    const db: Database
    var reindexQueue: seq<RecordId>

    constructor (db: Database)
      ensures this.db == db && reindexQueue == []
    {
      this.db := db;
      reindexQueue := [];
    }

    function View(): CatState
      reads this, db
    {
      CatState(db.View(), reindexQueue)
    }

    method AddCopy(r: RecordId, id: FileId, action: Action, url: string)
      modifies this, db
      ensures View() == CopyAdded(old(View()), r, id, action, url)
    {
      if id !in db.tags {
        return;
      }
      var t := db.tags[id];
      match action {
        case Archive => db.tags := db.tags[id := t.(cold := Some(url))];
        case Stage => db.tags := db.tags[id := t.(hotDeleted := false)];
        case ClearHot => return;
      }
      if r !in reindexQueue {
        reindexQueue := reindexQueue + [r];
      }
    }

    method ClearHot(r: RecordId, id: FileId, force: bool) returns (cleared: bool)
      modifies this, db
      ensures (cleared, View()) == MarkHotDeleted(old(View()), r, id, force)
    {
      if id !in db.tags {
        return false;
      }
      if db.tags[id].hotDeleted {
        cleared := force;
      } else {
        db.tags := db.tags[id := db.tags[id].(hotDeleted := true)];
        cleared := true;
      }
      if cleared && r !in reindexQueue {
        reindexQueue := reindexQueue + [r];
      }
    }

    method ReindexEntries()
      modifies this, db
      ensures View() == Reindexed(old(View()))
    {
      while |reindexQueue| > 0
        invariant RefreshAll(db.View(), reindexQueue) == RefreshAll(old(db.View()), old(reindexQueue))
        decreases |reindexQueue|
      {
        var r := reindexQueue[0];
        reindexQueue := reindexQueue[1..];
        if r in db.layout && r in db.records {
          var record := db.records[r];
          if db.layout[r].direct != [] {
            record := record.(files := FreshFiles(db.layout[r].direct, db.tags));
          }
          var indices := BuildIndices(db.layout[r].indices, db.tags);
          record := record.(indices := indices);
          record := CheckAvailability(db.View(), r, record);
          db.records := db.records[r := record];
        }
      }
    }

    method SaveRecordAvailability(r: RecordId)
      requires r in db.records
      modifies db
      ensures View() == old(View()).(store := SaveAvailability(old(db.View()), r))
    {
      var record := CheckAvailability(db.View(), r, db.records[r]);
      db.records := db.records[r := record];
    }
  }
}
