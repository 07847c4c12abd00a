/** A release and the identifier registry, updated in place by requests and by queued jobs. */
module ReleaseApi {
  import opened Options
  import opened ReleaseModel

  /** The registry as the running transaction sees it, and as it was last committed. */
  class Session {
    var pids: Registry
    var committed: Registry

    constructor (reg: Registry)
      ensures pids == committed == reg
    {
      pids, committed := reg, reg;
    }

    method Commit()
      modifies this
      ensures pids == committed == old(pids)
    {
      committed := pids;
    }

    method Rollback()
      modifies this
      ensures pids == committed == old(committed)
    {
      pids := committed;
    }

    method CreateRecord(owner: Owner, e: Entry) returns (ok: bool)
      modifies this`pids
      ensures ok == MintRecord(old(pids), owner, e).Some?
      ensures ok ==> pids == MintRecord(old(pids), owner, e).value
    {
      var value := if e.id.Some? then e.id else e.recid;
      if value.None? || Recid(value.value) in pids {
        return false;
      }
      pids := pids[Recid(value.value) := owner];
      if Oai(value.value) in pids {
        return false;
      }
      pids := pids[Oai(value.value) := owner];
      return true;
    }

    method CreateDocument(owner: Owner, slug: Option<string>) returns (ok: bool)
      modifies this`pids
      ensures ok == MintDocument(old(pids), owner, slug).Some?
      ensures ok ==> pids == MintDocument(old(pids), owner, slug).value
    {
      if slug.None? || DocId(slug.value) in pids {
        return false;
      }
      pids := pids[DocId(slug.value) := owner];
      return true;
    }

    method DeleteRecord(e: Entry) returns (ok: bool)
      modifies this`pids
      ensures ok == RemoveRecord(old(pids), e).Some?
      ensures ok ==> pids == RemoveRecord(old(pids), e).value
    {
      if e.recid.None? || Recid(e.recid.value) !in pids {
        return false;
      }
      var v := e.recid.value;
      ghost var before := pids;
      pids := pids - {Recid(v)};
      if Oai(v) !in pids {
        return false;
      }
      pids := pids - {Oai(v)};
      assert pids == before - {Recid(v), Oai(v)};
      return true;
    }

    method DeleteDocument(slug: Option<string>) returns (ok: bool)
      modifies this`pids
      ensures ok == RemoveDocument(old(pids), slug).Some?
      ensures ok ==> pids == RemoveDocument(old(pids), slug).value
    {
      if slug.Some? && slug.value != "" {
        if DocId(slug.value) !in pids {
          return false;
        }
        pids := pids - {DocId(slug.value)};
      }
      return true;
    }
  }

  class CuratedRelease {
    const id: ReleaseId
    var status: Status
    var history: seq<Status>
    var records: seq<Entry>
    var documents: seq<Option<string>>
    var numErrors: nat

    function View(): Release
      reads this
    {
      Release(status, history, Content(records, documents), numErrors)
    }

    constructor (id: ReleaseId, content: Content, errors: nat)
      ensures this.id == id && View() == Created(content, errors)
    {
      this.id := id;
      records, documents, numErrors := content.records, content.documents, errors;
      status := if errors == 0 then Ready else Draft;
      history := [if errors == 0 then Ready else Draft];
    }

    method ChangeStatus(s: Status)
      modifies this`status, this`history
      ensures View() == WithStatus(old(View()), s)
    {
      history := history + [s];
      status := s;
    }

    /** A request loads the release, checks its status and possibly locks it. */
    method Acquire(allowed: set<Status>, lock: Option<Status>) returns (ok: bool)
      modifies this`status, this`history
      ensures ok == Acquired(old(View()), allowed, lock).Some?
      ensures View() == if ok then Acquired(old(View()), allowed, lock).value else old(View())
    {
      if allowed != {} && status !in allowed {
        return false;
      }
      if lock.Some? {
        ChangeStatus(lock.value);
      }
      return true;
    }

    method Validate(errors: nat)
      modifies this
      ensures View() == Validated(old(View()), errors)
    {
      numErrors := errors;
      if numErrors == 0 {
        ChangeStatus(Ready);
      } else {
        ChangeStatus(Draft);
      }
    }

    method AddRecords(more: seq<Entry>, errors: nat)
      modifies this
      ensures View() == Validated(old(View()).(content := Content(old(records) + more, old(documents))), errors)
    {
      records := records + more;
      Validate(errors);
    }

    method UpdateDocument(slug: string, updated: Option<string>, errors: nat) returns (found: bool)
      modifies this
      ensures var result := WithDocument(old(documents), slug, updated);
              && found == result.Some?
              && View() == if found then Validated(old(View()).(content := Content(old(records), result.value)), errors)
                           else old(View())
    {
      for i := 0 to |documents|
        invariant View() == old(View())
        invariant forall k | 0 <= k < i :: documents[k] != Some(slug)
      {
        if documents[i] == Some(slug) {
          FirstDocument(documents, slug, updated, i);
          documents := documents[i := updated];
          Validate(errors);
          return true;
        }
      }
      FirstDocument(documents, slug, updated, |documents|);
      return false;
    }

    method FixChecks(content: Content, fixErrors: nat, errors: nat)
      modifies this
      ensures View() == FixedChecks(old(View()), content, fixErrors, errors)
    {
      records, documents := content.records, content.documents;
      if fixErrors > 0 {
        ChangeStatus(Draft);
      } else {
        Validate(errors);
      }
    }

    method MarkFailed(s: Status)
      modifies this
      ensures View() == MarkedFailed(old(View()), s)
    {
      numErrors := 1;
      ChangeStatus(s);
    }

    /** Raises (returns false) on a wrong status, on validation errors, and when something cannot be created. */
    method Stage(session: Session, broken: bool) returns (ok: bool)
      requires session.pids == session.committed
      modifies this, session
      ensures var r, reg := old(View()), old(session.committed);
              var result := MintAll(reg, Of(id), r.content);
              && ok == (r.status == Staging && r.numErrors == 0 && result.Some? && !broken)
              && (ok ==> View() == WithStatus(r, Staged) && session.pids == session.committed == result.value)
              && (!ok ==> View() == (if r.status == Staging && r.numErrors != 0 then WithStatus(r, Draft) else r)
                          && session.committed == reg)
    {
      if status != Staging {
        return false;
      }
      if numErrors != 0 {
        ChangeStatus(Draft);
        return false;
      }
      ghost var reg := session.pids;
      for i := 0 to |records|
        invariant View() == old(View()) && session.committed == reg
        invariant MintRecords(reg, Of(id), records[..i]) == Some(session.pids)
      {
        assert records[..i + 1][..i] == records[..i];
        var created := session.CreateRecord(Of(id), records[i]);
        if !created {
          MintRecordsFails(reg, Of(id), records, i + 1);
          return false;
        }
      }
      assert records[..|records|] == records;
      ghost var reg1 := session.pids;
      for i := 0 to |documents|
        invariant View() == old(View()) && session.committed == reg
        invariant MintDocuments(reg1, Of(id), documents[..i]) == Some(session.pids)
      {
        assert documents[..i + 1][..i] == documents[..i];
        var created := session.CreateDocument(Of(id), documents[i]);
        if !created {
          MintDocumentsFails(reg1, Of(id), documents, i + 1);
          return false;
        }
      }
      assert documents[..|documents|] == documents;
      if broken {
        return false;
      }
      ChangeStatus(Staged);
      session.Commit();
      return true;
    }

    method Publish(session: Session, broken: bool, errors: nat) returns (ok: bool)
      modifies this
      ensures ok == (old(status) == Publishing && PublishFinds(session.pids, old(View()).content) && !broken)
      ensures View() == if ok then WithStatus(old(View()).(numErrors := errors), Published) else old(View())
    {
      if status != Publishing {
        return false;
      }
      for i := 0 to |records|
        invariant View() == old(View())
        invariant forall k | 0 <= k < i :: records[k].recid.Some? && Recid(records[k].recid.value) in session.pids
      {
        if records[i].recid.None? || Recid(records[i].recid.value) !in session.pids {
          return false;
        }
      }
      for i := 0 to |documents|
        invariant View() == old(View())
        invariant forall k | 0 <= k < i ::
                    documents[k].Some? && documents[k].value != "" && DocId(documents[k].value) in session.pids
      {
        if documents[i].None? || documents[i].value == "" || DocId(documents[i].value) !in session.pids {
          return false;
        }
      }
      if broken {
        return false;
      }
      numErrors := errors;
      ChangeStatus(Published);
      return true;
    }

    /** Raises (returns false) on a wrong status or a missing identifier; the transaction is then not committed. */
    method Rollback(session: Session) returns (ok: bool)
      requires session.pids == session.committed
      modifies this, session
      ensures (View(), session.committed) == RolledBack(old(View()), old(session.committed))
      ensures session.pids == session.committed
    {
      if status != Staged {
        return false;
      }
      ghost var reg := session.pids;
      for i := 0 to |records|
        invariant View() == old(View()) && session.committed == reg
        invariant RemoveRecords(reg, records[..i]) == Some(session.pids)
      {
        assert records[..i + 1][..i] == records[..i];
        var removed := session.DeleteRecord(records[i]);
        if !removed {
          RemoveRecordsFails(reg, records, i + 1);
          session.Rollback();
          return false;
        }
      }
      assert records[..|records|] == records;
      ghost var reg1 := session.pids;
      for i := 0 to |documents|
        invariant View() == old(View()) && session.committed == reg
        invariant RemoveDocuments(reg1, documents[..i]) == Some(session.pids)
      {
        assert documents[..i + 1][..i] == documents[..i];
        var removed := session.DeleteDocument(documents[i]);
        if !removed {
          RemoveDocumentsFails(reg1, documents, i + 1);
          session.Rollback();
          return false;
        }
      }
      assert documents[..|documents|] == documents;
      ChangeStatus(Ready);
      session.Commit();
      return true;
    }
  }

  lemma {:induction false} FirstDocument(slugs: seq<Option<string>>, slug: string, updated: Option<string>, i: nat)
    requires i <= |slugs| && (forall k | 0 <= k < i :: slugs[k] != Some(slug)) && (i < |slugs| ==> slugs[i] == Some(slug))
    ensures WithDocument(slugs, slug, updated) == if i < |slugs| then Some(slugs[i := updated]) else None
    decreases |slugs|
  {
    if slugs != [] && i > 0 {
      assert forall k | 0 <= k < i - 1 :: slugs[1..][k] == slugs[k + 1];
      FirstDocument(slugs[1..], slug, updated, i - 1);
      assert i < |slugs| ==> slugs[i := updated] == [slugs[0]] + slugs[1..][i - 1 := updated];
    } else if slugs != [] {
      assert slugs[0 := updated] == [updated] + slugs[1..];
    }
  }

  // ---------- A failure stays a failure ----------

  lemma {:induction false} MintRecordsFails(reg: Registry, owner: Owner, records: seq<Entry>, n: nat)
    requires n <= |records| && MintRecords(reg, owner, records[..n]).None?
    ensures MintRecords(reg, owner, records).None?
    decreases |records| - n
  {
    if n < |records| {
      assert records[..n + 1][..n] == records[..n];
      MintRecordsFails(reg, owner, records, n + 1);
    } else {
      assert records[..n] == records;
    }
  }

  lemma {:induction false} MintDocumentsFails(reg: Registry, owner: Owner, slugs: seq<Option<string>>, n: nat)
    requires n <= |slugs| && MintDocuments(reg, owner, slugs[..n]).None?
    ensures MintDocuments(reg, owner, slugs).None?
    decreases |slugs| - n
  {
    if n < |slugs| {
      assert slugs[..n + 1][..n] == slugs[..n];
      MintDocumentsFails(reg, owner, slugs, n + 1);
    } else {
      assert slugs[..n] == slugs;
    }
  }

  lemma {:induction false} RemoveRecordsFails(reg: Registry, records: seq<Entry>, n: nat)
    requires n <= |records| && RemoveRecords(reg, records[..n]).None?
    ensures RemoveRecords(reg, records).None?
    decreases |records| - n
  {
    if n < |records| {
      assert records[..n + 1][..n] == records[..n];
      RemoveRecordsFails(reg, records, n + 1);
    } else {
      assert records[..n] == records;
    }
  }

  lemma {:induction false} RemoveDocumentsFails(reg: Registry, slugs: seq<Option<string>>, n: nat)
    requires n <= |slugs| && RemoveDocuments(reg, slugs[..n]).None?
    ensures RemoveDocuments(reg, slugs).None?
    decreases |slugs| - n
  {
    if n < |slugs| {
      assert slugs[..n + 1][..n] == slugs[..n];
      RemoveDocumentsFails(reg, slugs, n + 1);
    } else {
      assert slugs[..n] == slugs;
    }
  }

  // ---------- The queued jobs ----------

  method RunStageJob(release: CuratedRelease, session: Session, broken: bool)
    requires session.pids == session.committed
    modifies release, session
    ensures (release.View(), session.committed)
         == StageJob(old(release.View()), old(session.committed), release.id, broken)
    ensures session.pids == session.committed
  {
    var ok := release.Stage(session, broken);
    if !ok {
      session.Rollback();
      release.MarkFailed(Ready);
    }
  }

  method RunPublishJob(release: CuratedRelease, session: Session, broken: bool, errors: nat)
    requires session.pids == session.committed
    modifies release, session
    ensures release.View() == PublishJob(old(release.View()), old(session.committed), broken, errors)
    ensures session.pids == session.committed == old(session.committed)
  {
    var ok := release.Publish(session, broken, errors);
    if !ok {
      session.Rollback();
      release.MarkFailed(Staged);
    }
  }
}
