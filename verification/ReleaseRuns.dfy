/** Runs of the release process: requests, their second halves and queued jobs, interleaved in any order. */
module ReleaseRuns {
  import opened Options
  import opened ReleaseModel

  /** What a request still has to do after its lock was committed, and the queued jobs. */
  datatype Task =
    | ApplyEdit(id: ReleaseId, content: Content)
    | ApplyFix(id: ReleaseId, content: Content)
    | ResetStage(id: ReleaseId)
    | StageQueued(id: ReleaseId)
    | ResetPublish(id: ReleaseId)
    | PublishQueued(id: ReleaseId)

  /** The status in which a release waits for a task. */
  function Awaiting(t: Task): Status {
    match t
    case ApplyEdit(_, _) => Editing
    case ApplyFix(_, _) => Editing
    case ResetStage(_) => Staging
    case StageQueued(_) => Staging
    case ResetPublish(_) => Publishing
    case PublishQueued(_) => Publishing
  }

  datatype World =
    World(releases: map<ReleaseId, Release>, registry: Registry, tasks: seq<Task>, next: ReleaseId)

  /** The new contents and the outcomes of validations and external calls are part of the step. */
  datatype Step =
    | Create(content: Content, errors: nat)
    | LockEdit(id: ReleaseId, content: Content)
    | DirectEdit(id: ReleaseId, content: Content, errors: nat)
    | LockFix(id: ReleaseId, content: Content)
    | EnableValidation(id: ReleaseId, errors: nat)
    | LockStage(id: ReleaseId)
    | LockPublish(id: ReleaseId)
    | Rollback(id: ReleaseId)
    | Delete(id: ReleaseId)
    | Run(k: nat, broken: bool, fixErrors: nat, errors: nat)
    | Lose(k: nat)
    | RegisterOther(pid: Pid)
    | UnregisterOther(pid: Pid)

  function With(w: World, id: ReleaseId, r: Release): World {
    w.(releases := w.releases[id := r])
  }

  /** The first half of a request: guard, lock, and what remains to be done. */
  function Requested(w: World, id: ReleaseId, allowed: set<Status>, lock: Status, task: Task): World {
    if id !in w.releases then w
    else
      match Acquired(w.releases[id], allowed, Some(lock))
      case None => w
      case Some(r) => With(w, id, r).(tasks := w.tasks + [task])
  }

  function Without(tasks: seq<Task>, k: nat): seq<Task>
    requires k < |tasks|
  {
    tasks[..k] + tasks[k + 1..]
  }

  /** A task of a deleted release does nothing. */
  function Executed(w: World, t: Task, broken: bool, fixErrors: nat, errors: nat): World {
    if t.id !in w.releases then w
    else
      var id, r := t.id, w.releases[t.id];
      match t
      case ApplyEdit(_, c) => With(w, id, Validated(r.(content := c), errors))
      case ApplyFix(_, c) => With(w, id, FixedChecks(r, c, fixErrors, errors))
      case ResetStage(_) => With(w, id, r.(numErrors := 0)).(tasks := w.tasks + [StageQueued(id)])
      case StageQueued(_) =>
        var (r', reg) := StageJob(r, w.registry, id, broken);
        With(w, id, r').(registry := reg)
      case ResetPublish(_) => With(w, id, r.(numErrors := 0)).(tasks := w.tasks + [PublishQueued(id)])
      case PublishQueued(_) => With(w, id, PublishJob(r, w.registry, broken, errors))
  }

  /** One step; a step that does not apply changes nothing. */
  function Next(w: World, step: Step): World {
    match step
    case Create(c, errors) => With(w, w.next, Created(c, errors)).(next := w.next + 1)
    case LockEdit(id, c) => Requested(w, id, {}, Editing, ApplyEdit(id, c))
    case DirectEdit(id, c, errors) =>
      if id in w.releases then With(w, id, Validated(w.releases[id].(content := c), errors)) else w
    case LockFix(id, c) => Requested(w, id, {Draft, Ready}, Editing, ApplyFix(id, c))
    case EnableValidation(id, errors) =>
      if id in w.releases && w.releases[id].status in {Draft, Ready}
      then With(w, id, Validated(w.releases[id], errors)) else w
    case LockStage(id) => Requested(w, id, {Ready}, Staging, ResetStage(id))
    case LockPublish(id) => Requested(w, id, {Staged}, Publishing, ResetPublish(id))
    case Rollback(id) =>
      if id !in w.releases then w
      else
        var (r, reg) := RolledBack(w.releases[id], w.registry);
        With(w, id, r).(registry := reg)
    case Delete(id) =>
      if id in w.releases && w.releases[id].status in {Draft, Ready} then w.(releases := w.releases - {id}) else w
    case Run(k, broken, fixErrors, errors) =>
      if k < |w.tasks| then Executed(w.(tasks := Without(w.tasks, k)), w.tasks[k], broken, fixErrors, errors) else w
    case Lose(k) => if k < |w.tasks| then w.(tasks := Without(w.tasks, k)) else w
    case RegisterOther(pid) => if pid in w.registry then w else w.(registry := w.registry[pid := Outside])
    case UnregisterOther(pid) =>
      if pid in w.registry && w.registry[pid] == Outside then w.(registry := w.registry - {pid}) else w
  }

  function End(w: World, steps: seq<Step>): World
    decreases |steps|
  {
    if steps == [] then w else End(Next(w, steps[0]), steps[1..])
  }

  ghost predicate Initial(w: World) {
    w.releases == map[] && w.tasks == [] && forall p | p in w.registry :: w.registry[p] == Outside
  }

  // ---------- The order of a history ----------

  /** The events of p occur in h in that order. */
  predicate Subsequence(p: seq<Status>, h: seq<Status>)
    decreases |h|
  {
    p == []
    || (h != [] && (Subsequence(p, h[..|h| - 1])
                    || (p[|p| - 1] == h[|h| - 1] && Subsequence(p[..|p| - 1], h[..|h| - 1]))))
  }

  ghost predicate Follows(h: seq<Status>, k: nat, before: Status)
    requires k < |h|
  {
    k >= 1 && h[k - 1] == before
  }

  /** What may stand at a place of a history. */
  ghost predicate Allowed(h: seq<Status>, k: nat)
    requires k < |h|
  {
    match h[k]
    case Staging => Follows(h, k, Ready)
    case Publishing => Follows(h, k, Staged)
    case Published => Follows(h, k, Publishing)
    case Staged => Subsequence([Ready, Staging], h[..k])
    case _ => true
  }

  ghost predicate Ordered(h: seq<Status>) {
    forall k | 0 <= k < |h| :: Allowed(h, k)
  }

  /** The status of a release is the last event of its history, and the history is in order. */
  ghost predicate Recorded(r: Release) {
    r.history != [] && r.status == r.history[|r.history| - 1] && Ordered(r.history)
  }

  predicate IsPublish(t: Task) {
    t.ResetPublish? || t.PublishQueued?
  }

  ghost predicate HistoryInv(w: World) {
    && (forall id | id in w.releases :: id < w.next && Recorded(w.releases[id]))
    && (forall k | 0 <= k < |w.tasks| :: w.tasks[k].id < w.next)
    && (forall k | 0 <= k < |w.tasks| && IsPublish(w.tasks[k]) && w.tasks[k].id in w.releases ::
          Publishing in w.releases[w.tasks[k].id].history)
  }

  lemma SubsequenceLater(p: seq<Status>, h: seq<Status>, x: Status)
    requires Subsequence(p, h)
    ensures Subsequence(p, h + [x])
  {
    assert (h + [x])[..|h|] == h;
  }

  lemma SubsequenceNext(p: seq<Status>, h: seq<Status>, x: Status)
    requires Subsequence(p, h)
    ensures Subsequence(p + [x], h + [x])
  {
    assert (h + [x])[..|h|] == h && (p + [x])[..|p|] == p;
  }

  lemma {:induction false} SubsequencePrefix(p: seq<Status>, h: seq<Status>, n: nat)
    requires n <= |h| && Subsequence(p, h[..n])
    ensures Subsequence(p, h)
    decreases |h|
  {
    if n == |h| {
      assert h[..n] == h;
    } else {
      var m := |h| - 1;
      assert h[..m][..n] == h[..n];
      SubsequencePrefix(p, h[..m], n);
      SubsequenceLater(p, h[..m], h[m]);
      assert h == h[..m] + [h[m]];
    }
  }

  /** A new event that is allowed where it stands keeps the history in order. */
  lemma Append(r: Release, s: Status)
    requires Recorded(r)
    requires s == Staging ==> r.status == Ready
    requires s == Publishing ==> r.status == Staged
    requires s == Published ==> r.status == Publishing
    requires s == Staged ==> Subsequence([Ready, Staging], r.history)
    ensures Recorded(WithStatus(r, s))
  {
    var h, n := r.history, |r.history|;
    var h' := h + [s];
    assert h'[..n] == h;
    forall k | 0 <= k < |h'| ensures Allowed(h', k) {
      if k < n {
        assert h'[..k] == h[..k];
        assert Allowed(h, k);
      }
    }
  }

  /** A release that was ever being published had been made ready and staged. */
  lemma PublishingWasStaged(r: Release)
    requires Recorded(r) && Publishing in r.history
    ensures Subsequence([Ready, Staging], r.history)
  {
    var j :| 0 <= j < |r.history| && r.history[j] == Publishing;
    assert Allowed(r.history, j) && Allowed(r.history, j - 1);
    SubsequencePrefix([Ready, Staging], r.history, j - 1);
  }

  lemma StagingWasReady(r: Release)
    requires Recorded(r) && r.status == Staging
    ensures Subsequence([Ready, Staging], r.history)
  {
    var h, n := r.history, |r.history|;
    assert Allowed(h, n - 1);
    var h0 := h[..n - 2];
    assert h == h0 + [Ready] + [Staging];
    assert Subsequence([], h0);
    SubsequenceNext([], h0, Ready);
    SubsequenceNext([Ready], h0 + [Ready], Staging);
    assert [] + [Ready] == [Ready] && [Ready] + [Staging] == [Ready, Staging];
  }

  // ---------- Every step keeps the order ----------

  /** One release moved on, and at most one task was added for it. */
  lemma UpdateKeeps(w: World, w': World, id: ReleaseId, r: Release, added: seq<Task>)
    requires HistoryInv(w) && id in w.releases
    requires w'.releases == w.releases[id := r] && w'.tasks == w.tasks + added && w'.next == w.next
    requires Recorded(r) && w.releases[id].history <= r.history
    requires |added| <= 1 && forall t | t in added :: t.id == id && (IsPublish(t) ==> Publishing in r.history)
    ensures HistoryInv(w')
  {
    hide Recorded;
    forall k | 0 <= k < |w'.tasks| && IsPublish(w'.tasks[k]) && w'.tasks[k].id in w'.releases
      ensures Publishing in w'.releases[w'.tasks[k].id].history {
      if k < |w.tasks| {
        assert w'.tasks[k] == w.tasks[k];
        var h := w.releases[w.tasks[k].id].history;
        var j :| 0 <= j < |h| && h[j] == Publishing;
        assert w'.releases[w.tasks[k].id].history[j] == Publishing;
      } else {
        assert w'.tasks[k] == added[0] && added[0] in added;
      }
    }
    forall k | 0 <= k < |w'.tasks| ensures w'.tasks[k].id < w'.next {
      assert k >= |w.tasks| ==> w'.tasks[k] == added[0] && added[0] in added;
    }
  }

  lemma WithoutKeeps(w: World, k: nat)
    requires HistoryInv(w) && k < |w.tasks|
    ensures HistoryInv(w.(tasks := Without(w.tasks, k)))
  {
    hide Recorded;
    var tasks := Without(w.tasks, k);
    assert forall j | 0 <= j < |tasks| :: tasks[j] == w.tasks[if j < k then j else j + 1];
  }

  lemma ValidatedKeeps(r: Release, c: Content, errors: nat)
    requires Recorded(r)
    ensures Recorded(Validated(r.(content := c), errors)) && r.history <= Validated(r.(content := c), errors).history
  {
    Append(r.(content := c, numErrors := errors), if errors == 0 then Ready else Draft);
  }

  lemma FailedKeeps(r: Release, s: Status)
    requires Recorded(r) && (s == Ready || (s == Staged && Subsequence([Ready, Staging], r.history)))
    ensures Recorded(MarkedFailed(r, s)) && r.history <= MarkedFailed(r, s).history
  {
    Append(r.(numErrors := 1), s);
  }

  lemma StageJobKeeps(r: Release, reg: Registry, id: ReleaseId, broken: bool)
    requires Recorded(r)
    ensures var r' := StageJob(r, reg, id, broken).0; Recorded(r') && r.history <= r'.history
  {
    hide MintAll, Recorded, Subsequence;
    FailedKeeps(r, Ready);
    if r.status == Staging {
      Append(r, Draft);
      FailedKeeps(WithStatus(r, Draft), Ready);
      StagingWasReady(r);
      Append(r, Staged);
    }
  }

  lemma PublishJobKeeps(r: Release, reg: Registry, broken: bool, errors: nat)
    requires Recorded(r) && Publishing in r.history
    ensures var r' := PublishJob(r, reg, broken, errors); Recorded(r') && r.history <= r'.history
  {
    hide PublishFinds, Subsequence;
    PublishingWasStaged(r);
    FailedKeeps(r, Staged);
    if r.status == Publishing {
      Append(r.(numErrors := errors), Published);
    }
  }

  lemma LockKeeps(w: World, id: ReleaseId, allowed: set<Status>, lock: Status, task: Task)
    requires HistoryInv(w) && task.id == id
    requires lock == Editing || (lock == Staging && allowed == {Ready}) || (lock == Publishing && allowed == {Staged})
    requires IsPublish(task) ==> lock == Publishing
    ensures HistoryInv(Requested(w, id, allowed, lock, task))
  {
    hide Recorded;
    if id in w.releases && Acquired(w.releases[id], allowed, Some(lock)).Some? {
      var r := w.releases[id];
      Append(r, lock);
      var h := WithStatus(r, lock).history;
      assert h[|h| - 1] == lock;
      UpdateKeeps(w, Requested(w, id, allowed, lock, task), id, WithStatus(r, lock), [task]);
    }
  }

  lemma ExecutedKeeps(w: World, t: Task, broken: bool, fixErrors: nat, errors: nat)
    requires HistoryInv(w) && t.id < w.next
    requires IsPublish(t) && t.id in w.releases ==> Publishing in w.releases[t.id].history
    ensures HistoryInv(Executed(w, t, broken, fixErrors, errors))
  {
    hide HistoryInv, StageJob, PublishJob, Ordered;
    if t.id in w.releases {
      var id, r, w' := t.id, w.releases[t.id], Executed(w, t, broken, fixErrors, errors);
      assert Recorded(r) by { RecordedRelease(w, id); }
      assert w.tasks + [] == w.tasks;
      match t
      case ApplyEdit(_, c) =>
        ValidatedKeeps(r, c, errors);
        UpdateKeeps(w, w', id, Validated(r.(content := c), errors), []);
      case ApplyFix(_, c) =>
        ValidatedKeeps(r, c, errors);
        Append(r.(content := c), Draft);
        UpdateKeeps(w, w', id, FixedChecks(r, c, fixErrors, errors), []);
      case ResetStage(_) => UpdateKeeps(w, w', id, r.(numErrors := 0), [StageQueued(id)]);
      case StageQueued(_) =>
        StageJobKeeps(r, w.registry, id, broken);
        UpdateKeeps(w, w', id, StageJob(r, w.registry, id, broken).0, []);
      case ResetPublish(_) => UpdateKeeps(w, w', id, r.(numErrors := 0), [PublishQueued(id)]);
      case PublishQueued(_) =>
        PublishJobKeeps(r, w.registry, broken, errors);
        UpdateKeeps(w, w', id, PublishJob(r, w.registry, broken, errors), []);
    }
  }

  lemma RecordedRelease(w: World, id: ReleaseId)
    requires HistoryInv(w) && id in w.releases
    ensures Recorded(w.releases[id]) && id < w.next
  {
  }

  lemma CreatedRecorded(c: Content, errors: nat)
    ensures Recorded(Created(c, errors))
  {
  }

  lemma EditKeeps(w: World, id: ReleaseId, c: Content, errors: nat)
    requires HistoryInv(w) && id in w.releases
    ensures HistoryInv(With(w, id, Validated(w.releases[id].(content := c), errors)))
  {
    hide HistoryInv, Recorded;
    RecordedRelease(w, id);
    ValidatedKeeps(w.releases[id], c, errors);
    assert w.tasks + [] == w.tasks;
    var r := Validated(w.releases[id].(content := c), errors);
    UpdateKeeps(w, With(w, id, r), id, r, []);
  }

  lemma RollbackKeeps(w: World, id: ReleaseId)
    requires HistoryInv(w) && id in w.releases
    ensures HistoryInv(Next(w, Rollback(id)))
  {
    hide HistoryInv, Recorded, RemoveAll;
    RecordedRelease(w, id);
    Append(w.releases[id], Ready);
    assert w.tasks + [] == w.tasks;
    UpdateKeeps(w, Next(w, Rollback(id)), id, RolledBack(w.releases[id], w.registry).0, []);
  }

  lemma NextKeepsHistory(w: World, step: Step)
    requires HistoryInv(w)
    ensures HistoryInv(Next(w, step))
  {
    hide Requested, Executed, Ordered, RolledBack, Validated;
    match step
    case Create(c, errors) => CreatedRecorded(c, errors);
    case LockEdit(id, c) => LockKeeps(w, id, {}, Editing, ApplyEdit(id, c));
    case DirectEdit(id, c, errors) =>
      if id in w.releases { EditKeeps(w, id, c, errors); }
    case LockFix(id, c) => LockKeeps(w, id, {Draft, Ready}, Editing, ApplyFix(id, c));
    case EnableValidation(id, errors) =>
      if id in w.releases && w.releases[id].status in {Draft, Ready} {
        EditKeeps(w, id, w.releases[id].content, errors);
      }
    case LockStage(id) => LockKeeps(w, id, {Ready}, Staging, ResetStage(id));
    case LockPublish(id) => LockKeeps(w, id, {Staged}, Publishing, ResetPublish(id));
    case Rollback(id) =>
      if id in w.releases { RollbackKeeps(w, id); }
    case Delete(id) =>
    case Run(k, broken, fixErrors, errors) =>
      if k < |w.tasks| {
        WithoutKeeps(w, k);
        ExecutedKeeps(w.(tasks := Without(w.tasks, k)), w.tasks[k], broken, fixErrors, errors);
      }
    case Lose(k) => if k < |w.tasks| { WithoutKeeps(w, k); }
    case RegisterOther(pid) =>
    case UnregisterOther(pid) =>
  }

  lemma {:induction false} RunKeepsHistory(w: World, steps: seq<Step>)
    requires HistoryInv(w)
    ensures HistoryInv(End(w, steps))
    decreases |steps|
  {
    hide HistoryInv, Next;
    if steps != [] {
      NextKeepsHistory(w, steps[0]);
      RunKeepsHistory(Next(w, steps[0]), steps[1..]);
    }
  }

  /** What an order of a history amounts to at one of its events. */
  ghost predicate InOrder(h: seq<Status>, k: nat)
    requires k < |h|
  {
    && (h[k] == Staging ==> Follows(h, k, Ready))
    && (h[k] == Publishing ==> Follows(h, k, Staged))
    && (h[k] == Published ==> Follows(h, k, Publishing) && Subsequence([Ready, Staging, Staged, Publishing], h[..k]))
  }

  lemma RecordedInOrder(r: Release, k: nat)
    requires Recorded(r) && k < |r.history|
    ensures r.status == r.history[|r.history| - 1] && InOrder(r.history, k)
  {
    hide Subsequence;
    assert Allowed(r.history, k);
    if r.history[k] == Published {
      PublishedPath(r.history, k);
    }
  }

  /** The order of every history, under any interleaving of requests, edits, queued jobs and failures: the status
      is the last event; staging directly follows ready, publishing directly follows staged, published directly
      follows publishing, and whatever is published was ready, staging, staged and publishing before, in that order. */
  lemma HistoryOrder(w0: World, steps: seq<Step>, id: ReleaseId, k: nat)
    requires Initial(w0) && id in End(w0, steps).releases && k < |End(w0, steps).releases[id].history|
    ensures var r := End(w0, steps).releases[id];
            r.status == r.history[|r.history| - 1] && InOrder(r.history, k)
  {
    hide InOrder, Recorded, End;
    InitialHistory(w0);
    RunKeepsHistory(w0, steps);
    RecordedRelease(End(w0, steps), id);
    RecordedInOrder(End(w0, steps).releases[id], k);
  }

  lemma InitialHistory(w: World)
    requires Initial(w)
    ensures HistoryInv(w)
  {
  }

  lemma PublishedPath(h: seq<Status>, k: nat)
    requires Ordered(h) && k < |h| && h[k] == Published
    ensures Subsequence([Ready, Staging, Staged, Publishing], h[..k])
  {
    hide Subsequence;
    assert Allowed(h, k) && Allowed(h, k - 1) && Allowed(h, k - 2);
    var h0 := h[..k - 2];
    assert h[..k] == h0 + [Staged] + [Publishing];
    SubsequenceNext([Ready, Staging], h0, Staged);
    SubsequenceNext([Ready, Staging] + [Staged], h0 + [Staged], Publishing);
    assert [Ready, Staging] + [Staged] + [Publishing] == [Ready, Staging, Staged, Publishing];
  }
}
