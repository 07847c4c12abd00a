/** The tables of the cold storage: tags, cached records, transfers and requests. */
module ColdModel {
  import opened Options
  import opened ColdTypes

  type FileId = nat
  type RecordId = nat

  // ---------- Files and their tags ----------

  /** The tags of an object version: the cold copy's URL, and the mark that the hot copy was removed. */
  datatype Tags = Tags(cold: Option<string>, hotDeleted: bool)

  datatype FileRow = FileRow(id: FileId, uri: string, size: nat)

  datatype IndexRow = IndexRow(key: string, files: seq<FileRow>)

  /** The buckets of a record: its direct files and its file indices. */
  datatype Layout = Layout(direct: seq<FileRow>, indices: seq<IndexRow>)

  // ---------- The copy of that information kept inside each record ----------

  datatype FileAvailability = FileOnline | FileOnDemand

  datatype RecordAvailability = Online | OnDemand | Partial | Requested

  type Counts = map<FileAvailability, nat>

  datatype CachedFile = CachedFile(row: FileRow, tags: Tags, availability: FileAvailability)

  datatype CachedIndex =
    CachedIndex(key: string, availability: Counts, numberFiles: nat, size: nat, files: seq<CachedFile>)

  datatype Record =
    Record(files: seq<CachedFile>, indices: seq<CachedIndex>, details: Counts, availability: RecordAvailability)

  // ---------- Transfers and requests ----------

  datatype TransferStatus = NoStatus | Done | Failed | Other(name: string)

  datatype Transfer =
    Transfer(action: Action, newFilename: string, record: RecordId, file: FileId, size: nat,
             status: TransferStatus, finished: bool)

  datatype RequestStatus = Submitted | Started | Completed

  /** A request; the file name "" stands for the whole record. */
  datatype Request =
    Request(record: RecordId, action: Action, file: string, status: RequestStatus,
            numTransfers: nat, size: nat, numFailed: nat)

  /** The database (transfers and requests are identified by their position) and the URLs present on storage. */
  datatype Store =
    Store(layout: map<RecordId, Layout>, tags: map<FileId, Tags>, records: map<RecordId, Record>,
          transfers: seq<Transfer>, requests: seq<Request>, disk: set<string>)

  // ---------- Queries ----------

  function TagsOf(tags: map<FileId, Tags>, id: FileId): Tags {
    if id in tags then tags[id] else Tags(None, false)
  }

  predicate IsScheduled(s: Store, file: FileId, action: Action) {
    exists i | 0 <= i < |s.transfers| ::
      s.transfers[i].file == file && s.transfers[i].action == action && !s.transfers[i].finished
  }

  function CountActive(transfers: seq<Transfer>, action: Action): nat {
    if transfers == [] then 0
    else
      var last := transfers[|transfers| - 1];
      CountActive(transfers[..|transfers| - 1], action) + if last.action == action && !last.finished then 1 else 0
  }

  function CountFailed(transfers: seq<Transfer>, r: RecordId): nat {
    if transfers == [] then 0
    else
      var last := transfers[|transfers| - 1];
      CountFailed(transfers[..|transfers| - 1], r) + if last.record == r && last.status == Failed then 1 else 0
  }

  /** Some stage request of the record is still submitted, or some stage transfer is unfinished. */
  predicate StageRequested(s: Store, r: RecordId) {
    exists i | 0 <= i < |s.requests| ::
      s.requests[i].record == r && s.requests[i].status == Submitted && s.requests[i].action == Stage
  }

  predicate StageTransferring(s: Store, r: RecordId) {
    exists i | 0 <= i < |s.transfers| ::
      s.transfers[i].record == r && !s.transfers[i].finished && s.transfers[i].action == Stage
  }

  predicate StagePending(s: Store, r: RecordId) {
    StageRequested(s, r) || StageTransferring(s, r)
  }

  // ---------- Availability ----------

  function Get(c: Counts, a: FileAvailability): nat {
    if a in c then c[a] else 0
  }

  function Bump(c: Counts, a: FileAvailability): Counts {
    c[a := Get(c, a) + 1]
  }

  function CountOnto(c: Counts, files: seq<CachedFile>): Counts {
    if files == [] then c
    else Bump(CountOnto(c, files[..|files| - 1]), files[|files| - 1].availability)
  }

  function Merge(a: Counts, b: Counts): Counts {
    map k | k in a.Keys + b.Keys :: Get(a, k) + Get(b, k)
  }

  function MergeIndices(indices: seq<CachedIndex>): Counts {
    if indices == [] then map[]
    else Merge(MergeIndices(indices[..|indices| - 1]), indices[|indices| - 1].availability)
  }

  function Details(files: seq<CachedFile>, indices: seq<CachedIndex>): Counts {
    CountOnto(MergeIndices(indices), files)
  }

  function BaseAvailability(details: Counts): RecordAvailability {
    if FileOnline in details && FileOnDemand in details then Partial
    else if FileOnDemand in details then OnDemand
    else Online
  }

  function CheckedAvailability(s: Store, r: RecordId, details: Counts): RecordAvailability {
    if StagePending(s, r) then Requested else BaseAvailability(details)
  }

  /** The record after its availability is recomputed from the files it lists. */
  function Rechecked(s: Store, r: RecordId, record: Record): Record {
    var details := Details(record.files, record.indices);
    record.(details := details, availability := CheckedAvailability(s, r, details))
  }

  // ---------- Recomputation from the tag table ----------

  function FreshFile(row: FileRow, tags: map<FileId, Tags>): CachedFile {
    var t := TagsOf(tags, row.id);
    CachedFile(row, t, if t.hotDeleted then FileOnDemand else FileOnline)
  }

  function FreshFiles(rows: seq<FileRow>, tags: map<FileId, Tags>): seq<CachedFile> {
    seq(|rows|, i requires 0 <= i < |rows| => FreshFile(rows[i], tags))
  }

  function TotalSize(rows: seq<FileRow>): nat {
    if rows == [] then 0 else TotalSize(rows[..|rows| - 1]) + rows[|rows| - 1].size
  }

  function FreshIndex(row: IndexRow, tags: map<FileId, Tags>): CachedIndex {
    var files := FreshFiles(row.files, tags);
    CachedIndex(row.key, CountOnto(map[], files), |row.files|, TotalSize(row.files), files)
  }

  function FreshIndices(rows: seq<IndexRow>, tags: map<FileId, Tags>): seq<CachedIndex> {
    seq(|rows|, i requires 0 <= i < |rows| => FreshIndex(rows[i], tags))
  }

  /** The cached files, indices and counts of the record all equal a recomputation from the tag table. */
  predicate Agrees(s: Store, r: RecordId)
    requires r in s.layout && r in s.records
  {
    var record, layout := s.records[r], s.layout[r];
    && record.files == FreshFiles(layout.direct, s.tags)
    && record.indices == FreshIndices(layout.indices, s.tags)
    && record.details == Details(record.files, record.indices)
  }

  // ---------- Selection of files ----------

  function IndexFiles(indices: seq<CachedIndex>, name: string): seq<CachedFile> {
    if indices == [] then []
    else (if name == "" || indices[0].key == name then indices[0].files else []) + IndexFiles(indices[1..], name)
  }

  /** A named selection only looks at the indices; direct files are listed when no name is given. */
  function NamedFiles(record: Record, name: string): seq<CachedFile> {
    (if name == "" then record.files else []) + IndexFiles(record.indices, name)
  }

  /** A positive limit keeps that many files, a negative one skips that many. */
  function SelectFiles(record: Record, limit: int, name: string): seq<CachedFile> {
    var files := NamedFiles(record, name);
    if limit == 0 then files
    else if limit < 0 then (if -limit <= |files| then files[-limit..] else [])
    else (if limit <= |files| then files[..limit] else files)
  }
}
