/** The invariant that ties the tag table, the cached records and the transfers together. It assumes nothing of
    locations, of the storage, or of the answers of the outside world. */
module ColdInvariant {
  import opened ColdTypes
  import opened ColdModel
  import opened Catalog
  import opened Service

  // ---------- Rows of a record ----------

  function IndexRows(indices: seq<IndexRow>): seq<FileRow> {
    if indices == [] then [] else indices[0].files + IndexRows(indices[1..])
  }

  /** Every object version of the record: its direct files, then the files of its indices. */
  function Rows(l: Layout): seq<FileRow> {
    l.direct + IndexRows(l.indices)
  }

  type Layouts = map<RecordId, Layout>

  ghost predicate Holds(l: Layouts, r: RecordId, row: FileRow) {
    r in l && row in Rows(l[r])
  }

  ghost predicate DistinctRows(rows: seq<FileRow>) {
    forall i, j | 0 <= i < j < |rows| :: rows[i].id != rows[j].id
  }

  // ---------- What is assumed of the layout, which no step changes ----------

  /** Every file id belongs to one object version, of one record. */
  ghost predicate OneVersion(l: Layouts) {
    && (forall r | r in l :: DistinctRows(Rows(l[r])))
    && (forall r, q, row, other | Holds(l, r, row) && Holds(l, q, other) && row.id == other.id :: r == q && row == other)
  }

  // ---------- The invariant ----------

  /** A hot copy is marked removed only if a cold one is tagged. */
  ghost predicate TagTableSound(l: Layouts, tags: map<FileId, Tags>) {
    forall r, row | Holds(l, r, row) :: row.id in tags && (tags[row.id].hotDeleted ==> tags[row.id].cold.Some?)
  }

  /** What an unfinished transfer is for: an archive of a file without cold copy, or a stage of a removed one. */
  ghost predicate TransferFits(l: Layouts, tags: map<FileId, Tags>, t: Transfer, row: FileRow) {
    && Holds(l, t.record, row) && row.id == t.file
    && match t.action
       case Archive => TagsOf(tags, row.id).cold.None?
       case Stage => TagsOf(tags, row.id).hotDeleted
       case ClearHot => false
  }

  /** Every unfinished transfer fits some file, and no file has two of them. */
  ghost predicate TransfersSound(l: Layouts, tags: map<FileId, Tags>, transfers: seq<Transfer>) {
    && (forall i | 0 <= i < |transfers| && !transfers[i].finished ::
          exists row :: TransferFits(l, tags, transfers[i], row))
    && (forall i, j | 0 <= i < j < |transfers| && !transfers[i].finished && !transfers[j].finished ::
          transfers[i].file != transfers[j].file)
  }

  ghost predicate Core(s: Store) {
    && OneVersion(s.layout)
    && s.records.Keys == s.layout.Keys
    && (forall r | r in s.layout && s.layout[r].direct == [] :: s.records[r].files == [])
    && TagTableSound(s.layout, s.tags)
    && TransfersSound(s.layout, s.tags, s.transfers)
    && Resolved(s)
  }

  /** An online record lists no removed file and no staging work is pending for it. */
  ghost predicate QuietWhenOnline(s: Store, r: RecordId)
    requires r in s.records
  {
    s.records[r].availability == Online ==> FileOnDemand !in s.records[r].details && !StagePending(s, r)
  }

  ghost predicate CacheSound(s: Store, r: RecordId) {
    r in s.layout && r in s.records && Agrees(s, r) && QuietWhenOnline(s, r)
  }

  /** Inside a step, only the records waiting in the queue may be out of date. */
  ghost predicate Mid(cs: CatState) {
    && Core(cs.store)
    && (forall r | r in cs.queue :: r in cs.store.layout)
    && (forall r | r in cs.store.layout && r !in cs.queue :: CacheSound(cs.store, r))
  }

  ghost predicate Inv(s: Store) {
    Core(s) && forall r | r in s.layout :: CacheSound(s, r)
  }

  // ---------- Frames ----------

  /** The recomputation of a record only reads the tags of its own rows. */
  lemma FreshFrame(rows: seq<FileRow>, tags: map<FileId, Tags>, tags': map<FileId, Tags>)
    requires forall row | row in rows :: TagsOf(tags, row.id) == TagsOf(tags', row.id)
    ensures FreshFiles(rows, tags) == FreshFiles(rows, tags')
  {
  }

  lemma FreshIndicesCons(rows: seq<IndexRow>, tags: map<FileId, Tags>)
    requires rows != []
    ensures FreshIndices(rows, tags) == [FreshIndex(rows[0], tags)] + FreshIndices(rows[1..], tags)
  {
    hide FreshIndex;
  }

  lemma {:induction false} IndicesFrame(rows: seq<IndexRow>, tags: map<FileId, Tags>, tags': map<FileId, Tags>)
    requires forall row | row in IndexRows(rows) :: TagsOf(tags, row.id) == TagsOf(tags', row.id)
    ensures FreshIndices(rows, tags) == FreshIndices(rows, tags')
  {
    hide FreshIndices, FreshFiles, TagsOf, CountOnto, TotalSize;
    if rows == [] {
      assert FreshIndices(rows, tags) == FreshIndices(rows, tags') by { NoIndices(tags, tags'); }
    } else {
      assert IndexRows(rows) == rows[0].files + IndexRows(rows[1..]);
      FreshFrame(rows[0].files, tags, tags');
      IndicesFrame(rows[1..], tags, tags');
      FreshIndicesCons(rows, tags);
      FreshIndicesCons(rows, tags');
    }
  }

  lemma NoIndices(tags: map<FileId, Tags>, tags': map<FileId, Tags>)
    ensures FreshIndices([], tags) == FreshIndices([], tags')
  {
  }

  lemma AgreesFrame(s: Store, s': Store, r: RecordId)
    requires r in s.layout && r in s.records && Agrees(s, r)
    requires s'.layout == s.layout && r in s'.records && s'.records[r] == s.records[r]
    requires forall row | row in Rows(s.layout[r]) :: TagsOf(s.tags, row.id) == TagsOf(s'.tags, row.id)
    ensures Agrees(s', r)
  {
    FreshFrame(s.layout[r].direct, s.tags, s'.tags);
    IndicesFrame(s.layout[r].indices, s.tags, s'.tags);
  }

  // ---------- Counting ----------

  /** How many of the rows have that availability according to the tag table. */
  function Tally(rows: seq<FileRow>, tags: map<FileId, Tags>, a: FileAvailability): nat {
    if rows == [] then 0
    else Tally(rows[..|rows| - 1], tags, a) + if FreshFile(rows[|rows| - 1], tags).availability == a then 1 else 0
  }

  lemma {:induction false} TallyAppend(x: seq<FileRow>, y: seq<FileRow>, tags: map<FileId, Tags>, a: FileAvailability)
    ensures Tally(x + y, tags, a) == Tally(x, tags, a) + Tally(y, tags, a)
  {
    if y == [] {
      assert x + y == x;
    } else {
      TallyAppend(x, y[..|y| - 1], tags, a);
      assert (x + y)[..|x + y| - 1] == x + y[..|y| - 1];
    }
  }

  lemma {:induction false} TallyPositive(rows: seq<FileRow>, tags: map<FileId, Tags>, a: FileAvailability)
    ensures Tally(rows, tags, a) > 0 <==> exists row :: row in rows && FreshFile(row, tags).availability == a
  {
    if rows != [] {
      var init := rows[..|rows| - 1];
      TallyPositive(init, tags, a);
      assert forall row :: row in rows <==> row in init || row == rows[|rows| - 1];
    }
  }

  lemma {:induction false} CountOntoTally(c: Counts, rows: seq<FileRow>, tags: map<FileId, Tags>, a: FileAvailability)
    ensures Get(CountOnto(c, FreshFiles(rows, tags)), a) == Get(c, a) + Tally(rows, tags, a)
    ensures a in CountOnto(c, FreshFiles(rows, tags)) <==> a in c || Tally(rows, tags, a) > 0
  {
    if rows != [] {
      var init := rows[..|rows| - 1];
      CountOntoTally(c, init, tags, a);
      assert FreshFiles(rows, tags)[..|rows| - 1] == FreshFiles(init, tags);
    }
  }

  lemma {:induction false} IndexRowsLast(indices: seq<IndexRow>)
    requires indices != []
    ensures IndexRows(indices) == IndexRows(indices[..|indices| - 1]) + indices[|indices| - 1].files
  {
    if |indices| > 1 {
      IndexRowsLast(indices[1..]);
      assert indices[1..][..|indices| - 2] == indices[..|indices| - 1][1..];
    }
  }

  lemma NoTally(tags: map<FileId, Tags>, a: FileAvailability)
    ensures Tally(IndexRows([]), tags, a) == 0
  {
  }

  lemma {:induction false} MergeTally(rows: seq<IndexRow>, tags: map<FileId, Tags>, a: FileAvailability)
    ensures Get(MergeIndices(FreshIndices(rows, tags)), a) == Tally(IndexRows(rows), tags, a)
    ensures a in MergeIndices(FreshIndices(rows, tags)) <==> Tally(IndexRows(rows), tags, a) > 0
  {
    hide Tally, CountOnto, FreshFiles, TotalSize, IndexRows;
    if rows == [] {
      assert Tally(IndexRows(rows), tags, a) == 0 by { NoTally(tags, a); }
    } else {
      var init, last := rows[..|rows| - 1], rows[|rows| - 1];
      MergeTally(init, tags, a);
      CountOntoTally(map[], last.files, tags, a);
      IndexRowsLast(rows);
      TallyAppend(IndexRows(init), last.files, tags, a);
      assert FreshIndices(rows, tags)[..|rows| - 1] == FreshIndices(init, tags);
    }
  }

  /** The counters kept in an up-to-date record are the numbers of its files with that availability;
      an availability without files is not mentioned. */
  lemma DetailsTally(s: Store, r: RecordId, a: FileAvailability)
    requires r in s.layout && r in s.records && Agrees(s, r)
    ensures Get(s.records[r].details, a) == Tally(Rows(s.layout[r]), s.tags, a)
    ensures a in s.records[r].details <==> Tally(Rows(s.layout[r]), s.tags, a) > 0
  {
    var layout := s.layout[r];
    MergeTally(layout.indices, s.tags, a);
    CountOntoTally(MergeIndices(s.records[r].indices), layout.direct, s.tags, a);
    TallyAppend(layout.direct, IndexRows(layout.indices), s.tags, a);
  }

  lemma DetailsMention(s: Store, r: RecordId)
    requires r in s.layout && r in s.records && Agrees(s, r)
    ensures FileOnDemand in s.records[r].details <==>
      exists row :: row in Rows(s.layout[r]) && TagsOf(s.tags, row.id).hotDeleted
  {
    DetailsTally(s, r, FileOnDemand);
    TallyPositive(Rows(s.layout[r]), s.tags, FileOnDemand);
    assert forall row :: FreshFile(row, s.tags).availability == FileOnDemand <==> TagsOf(s.tags, row.id).hotDeleted;
  }
}
