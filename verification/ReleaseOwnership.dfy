/** Which identifiers a release owns, over runs in which contents are edited only in draft or ready, and in which a
    rollback that goes through undoes the staging. */
module ReleaseOwnership {
  import opened Sequences
  import opened ReleaseModel
  import opened ReleaseRegistry
  import opened ReleaseRuns

  /** The assumption on a run: unguarded edits come in draft or ready, and a staged release is rolled back only if its
      content can be undone, unless the rollback is abandoned anyway. */
  ghost predicate Careful(w: World, step: Step) {
    match step
    case LockEdit(id, _) => id in w.releases ==> w.releases[id].status in {Draft, Ready}
    case DirectEdit(id, _, _) => id in w.releases ==> w.releases[id].status in {Draft, Ready}
    case Rollback(id) => id in w.releases && w.releases[id].status == Staged ==> Returns(w.releases[id].content, w.registry)
    case _ => true
  }

  /** The rollback of that content is abandoned, or it undoes the staging. */
  ghost predicate Returns(c: Content, reg: Registry) {
    RemoveAll(reg, c).None? || Undoable(c)
  }

  ghost predicate CarefulRun(w: World, steps: seq<Step>)
    decreases |steps|
  {
    steps == [] || (Careful(w, steps[0]) && CarefulRun(Next(w, steps[0]), steps[1..]))
  }

  ghost function Owned(reg: Registry, id: ReleaseId): set<Pid> {
    set p | p in reg && reg[p] == Of(id)
  }

  predicate InRegistry(s: Status) {
    s == Staged || s == Publishing || s == Published
  }

  /** What a release in that state owns. */
  ghost function Due(r: Release): set<Pid> {
    if InRegistry(r.status) then Keys(r.content) else {}
  }

  ghost predicate Sound(r: Release) {
    InRegistry(r.status) ==> Mintable(map[], r.content)
  }

  ghost predicate TasksMatch(w: World) {
    && (forall k | 0 <= k < |w.tasks| ::
          w.tasks[k].id in w.releases && w.releases[w.tasks[k].id].status == Awaiting(w.tasks[k]))
    && (forall j, k | 0 <= j < k < |w.tasks| :: w.tasks[j].id != w.tasks[k].id)
  }

  ghost predicate OwnershipInv(w: World) {
    && (forall id | id in w.releases :: id < w.next && Sound(w.releases[id]) && Owned(w.registry, id) == Due(w.releases[id]))
    && (forall p | p in w.registry && w.registry[p].Of? :: w.registry[p].release in w.releases)
    && TasksMatch(w)
  }

  // ---------- Frames ----------

  /** Only identifiers of that release came or went. */
  ghost predicate OthersKept(reg: Registry, reg': Registry, id: ReleaseId) {
    && (forall p | p in reg && reg[p] != Of(id) :: p in reg' && reg'[p] == reg[p])
    && (forall p | p in reg' && reg'[p] != Of(id) :: p in reg && reg[p] == reg'[p])
  }

  /** One release and its identifiers changed, and its task was replaced. */
  lemma UpdateOwns(w: World, w': World, id: ReleaseId, r: Release, added: seq<Task>)
    requires OwnershipInv(w) && id in w.releases
    requires w'.releases == w.releases[id := r] && w'.tasks == w.tasks + added && w'.next == w.next
    requires forall k | 0 <= k < |w.tasks| :: w.tasks[k].id != id
    requires |added| <= 1 && forall t | t in added :: t.id == id && r.status == Awaiting(t)
    requires Sound(r) && Owned(w'.registry, id) == Due(r)
    requires OthersKept(w.registry, w'.registry, id)
    ensures OwnershipInv(w')
  {
    hide Sound, Due, Mintable;
    forall i | i in w'.releases && i != id ensures Owned(w'.registry, i) == Due(w'.releases[i]) {
      forall p ensures p in Owned(w'.registry, i) <==> p in Owned(w.registry, i) {
      }
    }
    forall k | 0 <= k < |w'.tasks|
      ensures w'.tasks[k].id in w'.releases && w'.releases[w'.tasks[k].id].status == Awaiting(w'.tasks[k]) {
      assert if k < |w.tasks| then w'.tasks[k] == w.tasks[k] else w'.tasks[k] == added[0] && added[0] in added;
    }
    forall j, k | 0 <= j < k < |w'.tasks| ensures w'.tasks[j].id != w'.tasks[k].id {
      assert w'.tasks[j] == w.tasks[j];
      assert k >= |w.tasks| ==> w'.tasks[k] == added[0] && added[0] in added;
    }
  }

  /** The common case: the registry is as it was. */
  lemma UpdateKeepsPids(w: World, id: ReleaseId, r: Release, added: seq<Task>)
    requires OwnershipInv(w) && id in w.releases
    requires forall k | 0 <= k < |w.tasks| :: w.tasks[k].id != id
    requires |added| <= 1 && forall t | t in added :: t.id == id && r.status == Awaiting(t)
    requires Due(r) == Due(w.releases[id]) && Sound(r)
    ensures OwnershipInv(With(w, id, r).(tasks := w.tasks + added))
  {
    hide Sound, Due;
    UpdateOwns(w, With(w, id, r).(tasks := w.tasks + added), id, r, added);
  }

  lemma WithoutOwns(w: World, k: nat)
    requires OwnershipInv(w) && k < |w.tasks|
    ensures var w' := w.(tasks := Without(w.tasks, k));
            OwnershipInv(w') && forall j | 0 <= j < |w'.tasks| :: w'.tasks[j].id != w.tasks[k].id
  {
    hide Sound, Due, Owned;
    var tasks := Without(w.tasks, k);
    assert forall j | 0 <= j < |tasks| :: tasks[j] == w.tasks[if j < k then j else j + 1];
  }

  // ---------- The steps that touch the registry ----------

  lemma StageJobOwns(w: World, id: ReleaseId, broken: bool)
    requires OwnershipInv(w) && id in w.releases && w.releases[id].status == Staging
    requires forall k | 0 <= k < |w.tasks| :: w.tasks[k].id != id
    ensures var (r, reg) := StageJob(w.releases[id], w.registry, id, broken);
            OwnershipInv(With(w, id, r).(registry := reg))
  {
    hide MintAll, Keys, TasksMatch, OwnershipInv;
    var r0 := w.releases[id];
    var (r, reg) := StageJob(r0, w.registry, id, broken);
    var w' := With(w, id, r).(registry := reg);
    StagingExact(w.registry, Of(id), r0.content);
    assert w.tasks + [] == w.tasks;
    NothingOwned(w, id);
    if r.status == Staged {
      assert reg == Extended(w.registry, Of(id), Keys(r0.content));
      assert Mintable(map[], r0.content);
      assert Owned(reg, id) == Keys(r0.content);
    }
    UpdateOwns(w, w', id, r, []);
  }

  lemma RollbackOwns(w: World, id: ReleaseId)
    requires OwnershipInv(w) && id in w.releases && w.releases[id].status == Staged && Undoable(w.releases[id].content)
    ensures var (r, reg) := RolledBack(w.releases[id], w.registry);
            r.status == Ready && OwnershipInv(With(w, id, r).(registry := reg))
  {
    hide RemoveAll, Keys, TasksMatch, OwnershipInv, RemovedPids, Recids;
    var r0 := w.releases[id];
    var c := r0.content;
    var (r, reg) := RolledBack(r0, w.registry);
    assert Sound(r0) && Owned(w.registry, id) == Keys(c) by { SoundRelease(w, id); }
    UndoableRemoves(map[], c);
    UndoableHasRecids(c);
    RemovalExact(w.registry, c);
    assert Members(RemovedPids(c)) == Keys(c) <= w.registry.Keys;
    assert reg == w.registry - Keys(c);
    assert w.tasks + [] == w.tasks;
    NoTask(w, id);
    UpdateOwns(w, With(w, id, r).(registry := reg), id, r, []);
  }

  lemma SoundRelease(w: World, id: ReleaseId)
    requires OwnershipInv(w) && id in w.releases
    ensures Sound(w.releases[id]) && Owned(w.registry, id) == Due(w.releases[id]) && id < w.next
  {
  }

  /** A release has a task only while its status waits for one. */
  lemma NoTask(w: World, id: ReleaseId)
    requires OwnershipInv(w) && id in w.releases && w.releases[id].status in {Draft, Ready, Staged, Published}
    ensures forall k | 0 <= k < |w.tasks| :: w.tasks[k].id != id
  {
  }

  lemma NothingOwned(w: World, id: ReleaseId)
    requires OwnershipInv(w) && id in w.releases && !InRegistry(w.releases[id].status)
    ensures forall p | p in w.registry :: w.registry[p] != Of(id)
  {
    hide Sound, TasksMatch;
    assert Owned(w.registry, id) == Due(w.releases[id]) == {};
    forall p | p in w.registry ensures w.registry[p] != Of(id) {
      assert p !in Owned(w.registry, id);
    }
  }

  // ---------- Every step keeps the ownership ----------

  lemma EditOwns(w: World, id: ReleaseId, r: Release)
    requires OwnershipInv(w) && id in w.releases && w.releases[id].status in {Draft, Ready} && r.status in {Draft, Ready}
    ensures OwnershipInv(With(w, id, r))
  {
    hide OwnershipInv;
    NoTask(w, id);
    assert w.tasks + [] == w.tasks;
    UpdateKeepsPids(w, id, r, []);
  }

  lemma LockOwns(w: World, id: ReleaseId, allowed: set<Status>, lock: Status, task: Task)
    requires OwnershipInv(w) && task.id == id && lock == Awaiting(task)
    requires id in w.releases && (allowed == {} || w.releases[id].status in allowed) ==>
               (lock == Editing && w.releases[id].status in {Draft, Ready})
               || (lock == Staging && w.releases[id].status == Ready)
               || (lock == Publishing && w.releases[id].status == Staged)
    ensures OwnershipInv(Requested(w, id, allowed, lock, task))
  {
    hide OwnershipInv, Keys, Mintable;
    if id in w.releases && (allowed == {} || w.releases[id].status in allowed) {
      NoTask(w, id);
      SoundRelease(w, id);
      UpdateKeepsPids(w, id, WithStatus(w.releases[id], lock), [task]);
    }
  }

  lemma ExecutedOwns(w: World, t: Task, broken: bool, fixErrors: nat, errors: nat)
    requires OwnershipInv(w) && t.id in w.releases && w.releases[t.id].status == Awaiting(t)
    requires forall k | 0 <= k < |w.tasks| :: w.tasks[k].id != t.id
    ensures OwnershipInv(Executed(w, t, broken, fixErrors, errors))
  {
    hide OwnershipInv, StageJob, PublishFinds, Keys, Mintable;
    var id, r := t.id, w.releases[t.id];
    SoundRelease(w, id);
    assert w.tasks + [] == w.tasks;
    match t
    case ApplyEdit(_, c) => UpdateKeepsPids(w, id, Validated(r.(content := c), errors), []);
    case ApplyFix(_, c) => UpdateKeepsPids(w, id, FixedChecks(r, c, fixErrors, errors), []);
    case ResetStage(_) => UpdateKeepsPids(w, id, r.(numErrors := 0), [StageQueued(id)]);
    case StageQueued(_) => StageJobOwns(w, id, broken);
    case ResetPublish(_) => UpdateKeepsPids(w, id, r.(numErrors := 0), [PublishQueued(id)]);
    case PublishQueued(_) => UpdateKeepsPids(w, id, PublishJob(r, w.registry, broken, errors), []);
  }

  lemma CreateOwns(w: World, c: Content, errors: nat)
    requires OwnershipInv(w)
    ensures OwnershipInv(Next(w, Create(c, errors)))
  {
    hide Sound, Due;
    var w' := Next(w, Create(c, errors));
    assert Sound(Created(c, errors)) && Due(Created(c, errors)) == {} by { FreshRelease(c, errors); }
    assert Owned(w.registry, w.next) == {};
    assert forall id | id in w.releases :: w'.releases[id] == w.releases[id];
  }

  lemma FreshRelease(c: Content, errors: nat)
    ensures Sound(Created(c, errors)) && Due(Created(c, errors)) == {}
  {
  }

  lemma DeleteOwns(w: World, id: ReleaseId)
    requires OwnershipInv(w)
    ensures OwnershipInv(Next(w, Delete(id)))
  {
    hide Sound;
    if id in w.releases && w.releases[id].status in {Draft, Ready} {
      NoTask(w, id);
      NothingOwned(w, id);
    }
  }

  lemma OtherOwns(w: World, reg: Registry)
    requires OwnershipInv(w)
    requires forall p | p in reg && reg[p] != Outside :: p in w.registry && w.registry[p] == reg[p]
    requires forall p | p in w.registry && w.registry[p] != Outside :: p in reg && w.registry[p] == reg[p]
    ensures OwnershipInv(w.(registry := reg))
  {
    hide Sound, Due, TasksMatch;
    forall id | id in w.releases ensures Owned(reg, id) == Due(w.releases[id]) {
      assert Owned(reg, id) == Owned(w.registry, id);
    }
    assert TasksMatch(w.(registry := reg)) by { SameTasks(w, reg); }
  }

  lemma SameTasks(w: World, reg: Registry)
    requires TasksMatch(w)
    ensures TasksMatch(w.(registry := reg))
  {
  }

  lemma NextOwns(w: World, step: Step)
    requires OwnershipInv(w) && Careful(w, step)
    ensures OwnershipInv(Next(w, step))
  {
    hide OwnershipInv, Requested, Executed, RolledBack, Returns;
    match step
    case Create(c, errors) => CreateOwns(w, c, errors);
    case LockEdit(id, c) => LockOwns(w, id, {}, Editing, ApplyEdit(id, c));
    case DirectEdit(id, c, errors) =>
      if id in w.releases { EditOwns(w, id, Validated(w.releases[id].(content := c), errors)); }
    case LockFix(id, c) => LockOwns(w, id, {Draft, Ready}, Editing, ApplyFix(id, c));
    case EnableValidation(id, errors) =>
      if id in w.releases && w.releases[id].status in {Draft, Ready} {
        EditOwns(w, id, Validated(w.releases[id], errors));
      }
    case LockStage(id) => LockOwns(w, id, {Ready}, Staging, ResetStage(id));
    case LockPublish(id) => LockOwns(w, id, {Staged}, Publishing, ResetPublish(id));
    case Rollback(id) => RollbackStepOwns(w, id);
    case Delete(id) => DeleteOwns(w, id);
    case Run(k, broken, fixErrors, errors) =>
      if k < |w.tasks| {
        TaskRelease(w, k);
        WithoutOwns(w, k);
        ExecutedOwns(w.(tasks := Without(w.tasks, k)), w.tasks[k], broken, fixErrors, errors);
      }
    case Lose(k) => if k < |w.tasks| { WithoutOwns(w, k); }
    case RegisterOther(pid) => OtherOwns(w, Next(w, step).registry);
    case UnregisterOther(pid) => OtherOwns(w, Next(w, step).registry);
  }

  lemma RollbackStepOwns(w: World, id: ReleaseId)
    requires OwnershipInv(w) && Careful(w, Rollback(id))
    ensures OwnershipInv(Next(w, Rollback(id)))
  {
    hide OwnershipInv, RemoveAll, Undoable;
    if id in w.releases {
      if w.releases[id].status == Staged && Undoable(w.releases[id].content) {
        RollbackOwns(w, id);
      } else {
        assert w.releases[id := w.releases[id]] == w.releases;
      }
    }
  }

  /** The rollback of a staged release leaves the ownership right exactly if it is abandoned or undoes the staging. */
  lemma RollbackOwnsExactly(w: World, id: ReleaseId)
    requires OwnershipInv(w) && id in w.releases && w.releases[id].status == Staged
    ensures OwnershipInv(Next(w, Rollback(id))) <==> Returns(w.releases[id].content, w.registry)
  {
    hide OwnershipInv, RemoveAll, Undoable, Mintable, RemovedPids, Keys, Recids;
    var c, reg := w.releases[id].content, w.registry;
    if Returns(c, reg) {
      RollbackStepOwns(w, id);
    } else if OwnershipInv(Next(w, Rollback(id))) {
      var w' := Next(w, Rollback(id));
      SoundRelease(w, id);
      RemovalExact(reg, c);
      assert w'.registry == reg - Members(RemovedPids(c));
      NothingOwned(w', id);
      forall p | p in Keys(c) ensures p in Members(RemovedPids(c)) {
        assert p in Owned(reg, id);
        assert p !in w'.registry;
      }
      AllRemovedIsUndoable(c);
    }
  }

  lemma TaskRelease(w: World, k: nat)
    requires OwnershipInv(w) && k < |w.tasks|
    ensures w.tasks[k].id in w.releases && w.releases[w.tasks[k].id].status == Awaiting(w.tasks[k])
  {
  }

  lemma {:induction false} RunOwns(w: World, steps: seq<Step>)
    requires OwnershipInv(w) && CarefulRun(w, steps)
    ensures OwnershipInv(End(w, steps))
    decreases |steps|
  {
    hide OwnershipInv, Next, Careful;
    if steps != [] {
      NextOwns(w, steps[0]);
      RunOwns(Next(w, steps[0]), steps[1..]);
    }
  }

  lemma InitialOwns(w: World)
    requires Initial(w)
    ensures OwnershipInv(w)
  {
  }

  /** In every careful run, a release owns the identifiers of all its entries exactly while it is staged, being
      published or published, and none otherwise; no identifier belongs to a release that does not exist. */
  lemma RegistryOwnership(w0: World, steps: seq<Step>, id: ReleaseId)
    requires Initial(w0) && CarefulRun(w0, steps)
    ensures var w := End(w0, steps);
            Owned(w.registry, id)
              == if id in w.releases && InRegistry(w.releases[id].status) then Keys(w.releases[id].content) else {}
  {
    RunOwns(w0, steps);
  }

  /** In every careful run, where the content of a release can be undone, publication finds every identifier it looks
      up, and rollback is not abandoned. */
  lemma LookupsSucceed(w0: World, steps: seq<Step>, id: ReleaseId)
    requires Initial(w0) && CarefulRun(w0, steps) && id in End(w0, steps).releases
    ensures var w := End(w0, steps);
            var r := w.releases[id];
            && (r.status == Publishing && Undoable(r.content) ==> PublishFinds(w.registry, r.content))
            && (r.status == Staged && Undoable(r.content) ==> RolledBack(r, w.registry).0.status == Ready)
  {
    hide OwnershipInv, RolledBack, PublishFinds, Undoable;
    InitialOwns(w0);
    RunOwns(w0, steps);
    var w := End(w0, steps);
    if w.releases[id].status == Publishing && Undoable(w.releases[id].content) {
      SoundRelease(w, id);
      KeysAreFound(w.registry, id, w.releases[id].content);
    }
    if w.releases[id].status == Staged && Undoable(w.releases[id].content) {
      RollbackOwns(w, id);
    }
  }

  lemma KeysAreFound(reg: Registry, id: ReleaseId, c: Content)
    requires Owned(reg, id) == Keys(c) && Mintable(map[], c) && Undoable(c)
    ensures PublishFinds(reg, c)
  {
    KeysMembers(c);
    RecidsAt(c.records);
    forall i | 0 <= i < |c.records| ensures c.records[i].recid.Some? && Recid(c.records[i].recid.value) in reg {
      var v := c.records[i].recid;
      assert v in Recids(c.records);
      assert v in Members(Recids(c.records));
      assert Recid(v.value) in Keys(c);
    }
    forall i | 0 <= i < |c.documents|
      ensures c.documents[i].Some? && c.documents[i].value != "" && DocId(c.documents[i].value) in reg {
      assert c.documents[i] in c.documents;
      assert DocId(c.documents[i].value) in Keys(c);
    }
  }

  lemma {:induction false} RecidsAt(records: seq<Entry>)
    ensures forall i | 0 <= i < |records| :: records[i].recid in Recids(records)
  {
    if records != [] {
      RecidsAt(records[..|records| - 1]);
    }
  }
}
