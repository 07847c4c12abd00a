/** Releases, and the registry of persistent identifiers that staging fills and rollback empties. */
module ReleaseModel {
  import opened Options

  datatype Status = Draft | Ready | Editing | Staging | Staged | Publishing | Published

  type ReleaseId = nat

  /** What the registry reads of a record: its recid, and the id field that takes precedence when it is there. */
  datatype Entry = Entry(recid: Option<string>, id: Option<string>)

  /** The records, and the slugs of the documents. */
  datatype Content = Content(records: seq<Entry>, documents: seq<Option<string>>)

  datatype Release = Release(status: Status, history: seq<Status>, content: Content, numErrors: nat)

  datatype Pid = Recid(value: string) | Oai(value: string) | DocId(value: string)

  datatype Owner = Outside | Of(release: ReleaseId)

  type Registry = map<Pid, Owner>

  // ---------- Registration ----------

  function Register(reg: Registry, pid: Pid, owner: Owner): Option<Registry> {
    if pid in reg then None else Some(reg[pid := owner])
  }

  /** The value a record is registered under. */
  function Minted(e: Entry): Option<string> {
    if e.id.Some? then e.id else e.recid
  }

  function MintRecord(reg: Registry, owner: Owner, e: Entry): Option<Registry> {
    match Minted(e)
    case None => None
    case Some(v) =>
      match Register(reg, Recid(v), owner)
      case None => None
      case Some(reg1) => Register(reg1, Oai(v), owner)
  }

  function MintRecords(reg: Registry, owner: Owner, records: seq<Entry>): Option<Registry> {
    if records == [] then Some(reg)
    else
      match MintRecords(reg, owner, records[..|records| - 1])
      case None => None
      case Some(reg1) => MintRecord(reg1, owner, records[|records| - 1])
  }

  function MintDocument(reg: Registry, owner: Owner, slug: Option<string>): Option<Registry> {
    match slug
    case None => None
    case Some(s) => Register(reg, DocId(s), owner)
  }

  function MintDocuments(reg: Registry, owner: Owner, slugs: seq<Option<string>>): Option<Registry> {
    if slugs == [] then Some(reg)
    else
      match MintDocuments(reg, owner, slugs[..|slugs| - 1])
      case None => None
      case Some(reg1) => MintDocument(reg1, owner, slugs[|slugs| - 1])
  }

  function MintAll(reg: Registry, owner: Owner, c: Content): Option<Registry> {
    match MintRecords(reg, owner, c.records)
    case None => None
    case Some(reg1) => MintDocuments(reg1, owner, c.documents)
  }

  // ---------- Removal ----------

  /** Removal looks the record up under its recid, whatever it was registered under. */
  function RemoveRecord(reg: Registry, e: Entry): Option<Registry> {
    match e.recid
    case None => None
    case Some(v) => if Recid(v) in reg && Oai(v) in reg then Some(reg - {Recid(v), Oai(v)}) else None
  }

  function RemoveRecords(reg: Registry, records: seq<Entry>): Option<Registry> {
    if records == [] then Some(reg)
    else
      match RemoveRecords(reg, records[..|records| - 1])
      case None => None
      case Some(reg1) => RemoveRecord(reg1, records[|records| - 1])
  }

  /** A document without a slug, or with an empty one, is passed over. */
  function RemoveDocument(reg: Registry, slug: Option<string>): Option<Registry> {
    match slug
    case None => Some(reg)
    case Some(s) => if s == "" then Some(reg) else if DocId(s) in reg then Some(reg - {DocId(s)}) else None
  }

  function RemoveDocuments(reg: Registry, slugs: seq<Option<string>>): Option<Registry> {
    if slugs == [] then Some(reg)
    else
      match RemoveDocuments(reg, slugs[..|slugs| - 1])
      case None => None
      case Some(reg1) => RemoveDocument(reg1, slugs[|slugs| - 1])
  }

  function RemoveAll(reg: Registry, c: Content): Option<Registry> {
    match RemoveRecords(reg, c.records)
    case None => None
    case Some(reg1) => RemoveDocuments(reg1, c.documents)
  }

  // ---------- Publication: every identifier is looked up ----------

  predicate PublishFinds(reg: Registry, c: Content) {
    && (forall i | 0 <= i < |c.records| :: c.records[i].recid.Some? && Recid(c.records[i].recid.value) in reg)
    && (forall i | 0 <= i < |c.documents| ::
          c.documents[i].Some? && c.documents[i].value != "" && DocId(c.documents[i].value) in reg)
  }

  // ---------- Status changes ----------

  /** Every status change is recorded. */
  function WithStatus(r: Release, s: Status): Release {
    r.(status := s, history := r.history + [s])
  }

  /** After validation a release is ready exactly if it has no errors. */
  function Validated(r: Release, errors: nat): Release {
    WithStatus(r.(numErrors := errors), if errors == 0 then Ready else Draft)
  }

  function Created(c: Content, errors: nat): Release {
    Validated(Release(Draft, [], c, 0), errors)
  }

  function MarkedFailed(r: Release, s: Status): Release {
    WithStatus(r.(numErrors := 1), s)
  }

  /** The fixes changed the content; if they report errors, the number of errors is left as it was. */
  function FixedChecks(r: Release, c: Content, fixErrors: nat, errors: nat): Release {
    if fixErrors > 0 then WithStatus(r.(content := c), Draft) else Validated(r.(content := c), errors)
  }

  /** The queued staging job; it fails as a whole or registers everything. */
  function StageJob(r: Release, reg: Registry, id: ReleaseId, broken: bool): (Release, Registry) {
    if r.status != Staging then (MarkedFailed(r, Ready), reg)
    else if r.numErrors != 0 then (MarkedFailed(WithStatus(r, Draft), Ready), reg)
    else
      match MintAll(reg, Of(id), r.content)
      case None => (MarkedFailed(r, Ready), reg)
      case Some(reg1) => if broken then (MarkedFailed(r, Ready), reg) else (WithStatus(r, Staged), reg1)
  }

  /** The queued publication job. */
  function PublishJob(r: Release, reg: Registry, broken: bool, errors: nat): Release {
    if r.status != Publishing || !PublishFinds(reg, r.content) || broken then MarkedFailed(r, Staged)
    else WithStatus(r.(numErrors := errors), Published)
  }

  /** A rollback that meets a missing identifier is abandoned without any effect. */
  function RolledBack(r: Release, reg: Registry): (Release, Registry) {
    if r.status != Staged then (r, reg)
    else
      match RemoveAll(reg, r.content)
      case None => (r, reg)
      case Some(reg1) => (WithStatus(r, Ready), reg1)
  }

  // ---------- Requests ----------

  /** What a request gets: refused unless the status is allowed (any status if none is listed), then locked. */
  function Acquired(r: Release, allowed: set<Status>, lock: Option<Status>): Option<Release> {
    if allowed != {} && r.status !in allowed then None
    else match lock
      case None => Some(r)
      case Some(s) => Some(WithStatus(r, s))
  }

  /** The first document with that slug is replaced. */
  function WithDocument(slugs: seq<Option<string>>, slug: string, updated: Option<string>): Option<seq<Option<string>>> {
    if slugs == [] then None
    else if slugs[0] == Some(slug) then Some([updated] + slugs[1..])
    else
      match WithDocument(slugs[1..], slug, updated)
      case None => None
      case Some(rest) => Some([slugs[0]] + rest)
  }
}
