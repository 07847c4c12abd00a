/** What a step makes of a release, field by field; when a release becomes ready, and when staging is refused. */
module ReleaseStatus {
  import opened Options
  import opened ReleaseModel
  import opened ReleaseRegistry
  import opened ReleaseContents
  import opened ReleaseRuns
  import opened Sequences

  // ---------- Validation ----------

  /** The number of errors that the step finds in validating that release, if it validates it. */
  function Found(w: World, step: Step, id: ReleaseId): Option<nat> {
    match step
    case Create(_, errors) => if id == w.next then Some(errors) else None
    case DirectEdit(i, _, errors) => if i == id && id in w.releases then Some(errors) else None
    case EnableValidation(i, errors) =>
      if i == id && id in w.releases && (w.releases[id].status == Draft || w.releases[id].status == Ready)
      then Some(errors) else None
    case Run(k, _, fixErrors, errors) =>
      if k < |w.tasks| && w.tasks[k].id == id && id in w.releases
         && (w.tasks[k].ApplyEdit? || (w.tasks[k].ApplyFix? && fixErrors == 0))
      then Some(errors) else None
    case _ => None
  }

  /** The content that the step gives the release. */
  function Given(w: World, step: Step, id: ReleaseId): Content
    requires Found(w, step, id).Some?
  {
    match step
    case Create(c, _) => c
    case DirectEdit(_, c, _) => c
    case EnableValidation(_, _) => w.releases[id].content
    case Run(k, _, _, _) => w.tasks[k].content
  }

  /** Nothing else changed than that release, and what was queued at k, if a k is given, is gone. */
  predicate OnlyRelease(w: World, w': World, id: ReleaseId, k: Option<nat>) {
    && w'.releases.Keys == w.releases.Keys + {id}
    && (forall j | j in w.releases && j != id :: w'.releases[j] == w.releases[j])
    && (match k
        case None => w'.tasks == w.tasks
        case Some(i) => i < |w.tasks| && w'.tasks == w.tasks[..i] + w.tasks[i + 1..])
  }

  function Place(step: Step): Option<nat> {
    match step
    case Run(k, _, _, _) => Some(k)
    case _ => None
  }

  /** A validation is one event: the release is ready if and only if there are no errors, and a draft otherwise. */
  lemma ValidationDecides(w: World, step: Step, id: ReleaseId)
    requires Found(w, step, id).Some?
    ensures var w', errors := Next(w, step), Found(w, step, id).value;
            && OnlyRelease(w, w', id, Place(step)) && w'.registry == w.registry
            && w'.next == (if step.Create? then w.next + 1 else w.next)
            && w'.releases[id].numErrors == errors && w'.releases[id].content == Given(w, step, id)
            && w'.releases[id].history == (if step.Create? then [] else w.releases[id].history) + [w'.releases[id].status]
            && (w'.releases[id].status == Ready <==> errors == 0) && (w'.releases[id].status == Draft <==> errors > 0)
  {
    hide StageJob, PublishJob, RolledBack, Requested;
  }

  /** Fixes that report errors leave a draft, with the content they made and the number of errors of before. */
  lemma FailedFixIsDraft(w: World, k: nat, broken: bool, fixErrors: nat, errors: nat)
    requires k < |w.tasks| && w.tasks[k].ApplyFix? && w.tasks[k].id in w.releases && fixErrors > 0
    ensures var id, w' := w.tasks[k].id, Next(w, Run(k, broken, fixErrors, errors));
            var r := w.releases[id];
            && OnlyRelease(w, w', id, Some(k)) && w'.registry == w.registry && w'.next == w.next
            && w'.releases[id] == Release(Draft, r.history + [Draft], w.tasks[k].content, r.numErrors)
  {
    hide StageJob, PublishJob, RolledBack, Requested;
  }

  // ---------- Requests ----------

  const ANY_STATUS := {Draft, Ready, Editing, Staging, Staged, Publishing, Published}

  lemma InAnyStatus(s: Status)
    ensures s in ANY_STATUS
  {
  }

  /** The release of a request that locks, the statuses that it takes, the lock, and what then remains to be done. */
  function Lock(w: World, step: Step): Option<(ReleaseId, set<Status>, Status, Task)> {
    match step
    case LockEdit(id, c) => Some((id, ANY_STATUS, Editing, ApplyEdit(id, c)))
    case LockFix(id, c) => Some((id, {Draft, Ready}, Editing, ApplyFix(id, c)))
    case LockStage(id) => Some((id, {Ready}, Staging, ResetStage(id)))
    case LockPublish(id) => Some((id, {Staged}, Publishing, ResetPublish(id)))
    case _ => None
  }

  lemma LockAccepted(w: World, id: ReleaseId, allowed: set<Status>, lock: Status, task: Task)
    ensures var w' := Requested(w, id, allowed, lock, task);
            if id in w.releases && (allowed == {} || w.releases[id].status in allowed)
            then var r := w.releases[id];
                 w' == World(w.releases[id := Release(lock, r.history + [lock], r.content, r.numErrors)],
                             w.registry, w.tasks + [task], w.next)
            else w' == w
  {
  }

  /** A request is accepted exactly in its statuses; then the release is locked and one task is added. */
  lemma RequestExact(w: World, step: Step)
    requires Lock(w, step).Some?
    ensures var (id, taken, lock, task) := Lock(w, step).value;
            if id in w.releases && w.releases[id].status in taken
            then var r := w.releases[id];
                 Next(w, step) == World(w.releases[id := Release(lock, r.history + [lock], r.content, r.numErrors)],
                                        w.registry, w.tasks + [task], w.next)
            else Next(w, step) == w
  {
    hide Executed, RolledBack, Validated, Created;
    match step
    case LockEdit(id, c) =>
      LockAccepted(w, id, {}, Editing, ApplyEdit(id, c));
      if id in w.releases { InAnyStatus(w.releases[id].status); }
    case LockFix(id, c) => LockAccepted(w, id, {Draft, Ready}, Editing, ApplyFix(id, c));
    case LockStage(id) => LockAccepted(w, id, {Ready}, Staging, ResetStage(id));
    case LockPublish(id) => LockAccepted(w, id, {Staged}, Publishing, ResetPublish(id));
  }

  /** A release is deleted exactly as a draft or when it is ready. */
  lemma DeleteExact(w: World, id: ReleaseId)
    ensures var w' := Next(w, Delete(id));
            if id in w.releases && (w.releases[id].status == Draft || w.releases[id].status == Ready)
            then w'.releases.Keys == w.releases.Keys - {id} && (forall j | j in w'.releases :: w'.releases[j] == w.releases[j])
                 && w'.registry == w.registry && w'.tasks == w.tasks && w'.next == w.next
            else w' == w
  {
  }

  // ---------- Jobs and rollback ----------

  /** The second half of a staging or publication request clears the errors and queues the job. */
  lemma ResetExact(w: World, k: nat, broken: bool, fixErrors: nat, errors: nat)
    requires k < |w.tasks| && (w.tasks[k].ResetStage? || w.tasks[k].ResetPublish?) && w.tasks[k].id in w.releases
    ensures var id, r := w.tasks[k].id, w.releases[w.tasks[k].id];
            var job := if w.tasks[k].ResetStage? then StageQueued(id) else PublishQueued(id);
            Next(w, Run(k, broken, fixErrors, errors))
            == World(w.releases[id := Release(r.status, r.history, r.content, 0)], w.registry,
                     w.tasks[..k] + w.tasks[k + 1..] + [job], w.next)
  {
  }

  /** The staging job succeeds. */
  ghost predicate Stages(w: World, step: Step, id: ReleaseId) {
    && step.Run? && step.k < |w.tasks| && w.tasks[step.k] == StageQueued(id) && id in w.releases && !step.broken
    && w.releases[id].status == Staging && w.releases[id].numErrors == 0 && CanStage(w.registry, w.releases[id].content)
  }

  /** The staging job is run, and does not succeed. */
  ghost predicate FailsToStage(w: World, step: Step, id: ReleaseId) {
    && step.Run? && step.k < |w.tasks| && w.tasks[step.k] == StageQueued(id) && id in w.releases
    && !Stages(w, step, id)
  }

  /** A staging job either stages the release and registers its keys for it, or makes it ready again, with one error and
      the registry as it was. */
  lemma StagingJobExact(w: World, k: nat, broken: bool, fixErrors: nat, errors: nat)
    requires k < |w.tasks| && w.tasks[k].StageQueued? && w.tasks[k].id in w.releases
    ensures var id, step := w.tasks[k].id, Run(k, broken, fixErrors, errors);
            var r, w' := w.releases[id], Next(w, step);
            && OnlyRelease(w, w', id, Some(k)) && w'.next == w.next
            && if Stages(w, step, id)
               then w'.releases[id] == Release(Staged, r.history + [Staged], r.content, 0)
                    && (forall p :: p in w'.registry <==> p in w.registry || StagedKey(r.content, p))
                    && forall p | p in w'.registry ::
                         w'.registry[p] == if StagedKey(r.content, p) then Of(id) else w.registry[p]
               else w'.registry == w.registry
                    && w'.releases[id] == Release(Ready, r.history + Failure(r), r.content, 1)
  {
    hide MintAll, Mintable, Keys, CanStage, StagedKey;
    var r := w.releases[w.tasks[k].id];
    StagingExact(w.registry, Of(w.tasks[k].id), r.content);
    MintableExact(w.registry, r.content);
    forall p ensures p in Keys(r.content) <==> StagedKey(r.content, p) {
      StagedKeyExact(r.content, p);
    }
    assert r.history + [Draft] + [Ready] == r.history + [Draft, Ready];
  }

  /** The events of a failing staging job: validation errors make the release a draft first. */
  function Failure(r: Release): seq<Status> {
    if r.status == Staging && r.numErrors != 0 then [Draft, Ready] else [Ready]
  }

  lemma PublicationFinds(reg: Registry, c: Content)
    ensures PublishFinds(reg, c)
       <==> (forall e | e in c.records :: e.recid.Some? && Recid(e.recid.value) in reg)
            && (forall d | d in c.documents :: d.Some? && d != Some("") && DocId(d.value) in reg)
  {
    assert forall i | 0 <= i < |c.records| :: c.records[i] in c.records;
    assert forall i | 0 <= i < |c.documents| :: c.documents[i] in c.documents;
  }

  /** The publication job publishes exactly if everything is found; otherwise the release is staged, with one error. */
  lemma PublicationJobExact(w: World, k: nat, broken: bool, fixErrors: nat, errors: nat)
    requires k < |w.tasks| && w.tasks[k].PublishQueued? && w.tasks[k].id in w.releases
    ensures var id := w.tasks[k].id;
            var r, w' := w.releases[id], Next(w, Run(k, broken, fixErrors, errors));
            && OnlyRelease(w, w', id, Some(k)) && w'.next == w.next && w'.registry == w.registry
            && w'.releases[id]
               == if && r.status == Publishing && !broken
                     && (forall e | e in r.content.records :: e.recid.Some? && Recid(e.recid.value) in w.registry)
                     && (forall d | d in r.content.documents :: d.Some? && d != Some("") && DocId(d.value) in w.registry)
                  then Release(Published, r.history + [Published], r.content, errors)
                  else Release(Staged, r.history + [Staged], r.content, 1)
  {
    hide StageJob, RolledBack, Requested, Validated, PublishFinds;
    var c := w.releases[w.tasks[k].id].content;
    PublicationFinds(w.registry, c);
  }

  /** A staged release is taken back: each of its identifiers is there to be removed once. */
  ghost predicate TakenBack(w: World, step: Step, id: ReleaseId) {
    step == Rollback(id) && id in w.releases && w.releases[id].status == Staged && CanTakeBack(w.registry, w.releases[id].content)
  }

  /** A rollback makes a staged release ready, or has no effect at all. */
  lemma RollbackExact(w: World, id: ReleaseId)
    ensures var w' := Next(w, Rollback(id));
            if TakenBack(w, Rollback(id), id)
            then var r := w.releases[id];
                 && OnlyRelease(w, w', id, None) && w'.next == w.next
                 && (forall p :: p in w'.registry <==> p in w.registry && !RemovedKey(r.content, p))
                 && (forall p | p in w'.registry :: w'.registry[p] == w.registry[p])
                 && w'.releases[id] == Release(Ready, r.history + [Ready], r.content, r.numErrors)
            else w' == w
  {
    hide RemoveAll, RemovedPids, Recids, Distinct, Members, CanTakeBack, RemovedKey;
    if id in w.releases {
      var c := w.releases[id].content;
      RemovalExact(w.registry, c);
      RemovableExact(w.registry, c);
      forall p ensures p in Members(RemovedPids(c)) <==> RemovedKey(c, p) {
        RemovedKeyExact(c, p);
      }
    }
  }

  /** The steps of others: a lost task is gone; an identifier is registered by someone else if it is free, and removed by
      someone else if it is theirs. */
  lemma OthersExact(w: World, k: nat, pid: Pid)
    ensures k < |w.tasks| ==> Next(w, Lose(k)) == World(w.releases, w.registry, w.tasks[..k] + w.tasks[k + 1..], w.next)
    ensures Next(w, RegisterOther(pid))
         == World(w.releases, if pid in w.registry then w.registry else w.registry[pid := Outside], w.tasks, w.next)
    ensures Next(w, UnregisterOther(pid))
         == World(w.releases, if pid in w.registry && w.registry[pid] == Outside then w.registry - {pid} else w.registry,
                  w.tasks, w.next)
  {
    hide Executed, Requested, RolledBack, Validated, Created;
  }

  // ---------- When a release becomes ready ----------

  predicate IsReady(w: World, id: ReleaseId) {
    id in w.releases && w.releases[id].status == Ready
  }

  /** The step makes the release ready: a validation without errors, a staging job that fails, or a rollback. */
  ghost predicate Readies(w: World, step: Step, id: ReleaseId) {
    Found(w, step, id) == Some(0) || FailsToStage(w, step, id) || TakenBack(w, step, id)
  }

  /** Exactly these steps make a release ready that is not. */
  lemma ReadyExactly(w: World, step: Step, id: ReleaseId)
    requires !IsReady(w, id)
    ensures IsReady(Next(w, step), id) <==> Readies(w, step, id)
  {
    hide Next, CanStage, CanTakeBack;
    if Found(w, step, id).Some? {
      ValidationDecides(w, step, id);
    } else {
      NotValidated(w, step, id);
    }
  }

  lemma NotValidated(w: World, step: Step, id: ReleaseId)
    requires !IsReady(w, id) && Found(w, step, id).None?
    ensures IsReady(Next(w, step), id) <==> FailsToStage(w, step, id) || TakenBack(w, step, id)
  {
    hide MintAll, RemoveAll, PublishFinds, Mintable, Recids, RemovedPids, Distinct, Members, Keys, CanStage, CanTakeBack;
    match step
    case Run(k, broken, _, _) =>
      if k < |w.tasks| && w.tasks[k].StageQueued? && w.tasks[k].id in w.releases {
        StagingExact(w.registry, Of(w.tasks[k].id), w.releases[w.tasks[k].id].content);
        MintableExact(w.registry, w.releases[w.tasks[k].id].content);
      }
    case Rollback(i) =>
      if i in w.releases {
        RemovalExact(w.registry, w.releases[i].content);
        RemovableExact(w.registry, w.releases[i].content);
      }
    case _ =>
  }

  /** No step of the run makes the release ready. */
  ghost predicate NeverReadied(w: World, steps: seq<Step>, id: ReleaseId)
    decreases |steps|
  {
    steps == [] || (!Readies(w, steps[0], id) && NeverReadied(Next(w, steps[0]), steps[1..], id))
  }

  lemma {:induction false} StaysUnready(w: World, steps: seq<Step>, id: ReleaseId)
    requires !IsReady(w, id) && NeverReadied(w, steps, id)
    ensures !IsReady(End(w, steps), id)
    decreases |steps|
  {
    hide Next, Readies, IsReady;
    if steps != [] {
      ReadyExactly(w, steps[0], id);
      StaysUnready(Next(w, steps[0]), steps[1..], id);
    }
  }

  /** A release whose last validation found errors is refused for staging until a validation without errors, a failing
      staging job or a rollback has made it ready; whatever else happens, the request changes nothing. */
  lemma ErrorsBarStaging(w: World, step: Step, steps: seq<Step>, id: ReleaseId)
    requires Found(w, step, id).Some? && Found(w, step, id).value > 0
    requires NeverReadied(Next(w, step), steps, id)
    ensures var w' := End(Next(w, step), steps); Next(w', LockStage(id)) == w'
  {
    hide Next, Readies, End, NeverReadied;
    ValidationDecides(w, step, id);
    StaysUnready(Next(w, step), steps, id);
    RequestExact(End(Next(w, step), steps), LockStage(id));
  }

  /** From the step that makes it ready, staging is accepted. */
  lemma ReadiedIsStaged(w: World, step: Step, id: ReleaseId)
    requires !IsReady(w, id) && Readies(w, step, id)
    ensures var w' := Next(w, step);
            id in w'.releases && id in Next(w', LockStage(id)).releases
            && Next(w', LockStage(id)).releases[id].status == Staging
  {
    hide Next, Readies;
    ReadyExactly(w, step, id);
    RequestExact(Next(w, step), LockStage(id));
  }
}
