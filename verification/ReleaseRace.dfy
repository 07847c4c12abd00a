/** Requests that read the status of a release in one step and lock it in a later one: the lock does not read the
    status again. */
module ReleaseRace {
  import opened Options
  import opened ReleaseModel
  import opened ReleaseRegistry
  import opened ReleaseRuns
  import opened ReleaseOwnership

  /** A request that passed its guard on the status it saw, and has not locked the release yet. */
  datatype Late = Late(seen: Status, task: Task)

  datatype Race = Race(world: World, late: seq<Late>)

  datatype RaceStep =
    | Look(task: Task)
    | Lock(k: nat)
    | GiveUp(k: nat)
    | Other(step: Step)

  /** The statuses that the guard of a request admits; any, if none is listed. */
  function Guard(t: Task): set<Status> {
    match t
    case ApplyFix(_, _) => {Draft, Ready}
    case ResetStage(_) => {Ready}
    case ResetPublish(_) => {Staged}
    case _ => {}
  }

  predicate Admits(t: Task, s: Status) {
    Guard(t) == {} || s in Guard(t)
  }

  /** What begins with a lock. */
  predicate Locks(t: Task) {
    t.ApplyEdit? || t.ApplyFix? || t.ResetStage? || t.ResetPublish?
  }

  function Dropped(late: seq<Late>, k: nat): seq<Late>
    requires k < |late|
  {
    late[..k] + late[k + 1..]
  }

  /** The lock sets the status, whatever it is by now. */
  function Locked(w: World, t: Task): World {
    if t.id !in w.releases then w
    else With(w, t.id, WithStatus(w.releases[t.id], Awaiting(t))).(tasks := w.tasks + [t])
  }

  function NextRace(x: Race, step: RaceStep): Race {
    match step
    case Look(t) =>
      if Locks(t) && t.id in x.world.releases && Admits(t, x.world.releases[t.id].status)
      then x.(late := x.late + [Late(x.world.releases[t.id].status, t)]) else x
    case Lock(k) =>
      if k < |x.late| then Race(Locked(x.world, x.late[k].task), Dropped(x.late, k)) else x
    case GiveUp(k) => if k < |x.late| then x.(late := Dropped(x.late, k)) else x
    case Other(s) => x.(world := Next(x.world, s))
  }

  function EndRace(x: Race, steps: seq<RaceStep>): Race
    decreases |steps|
  {
    if steps == [] then x else EndRace(NextRace(x, steps[0]), steps[1..])
  }

  /** The whole request that begins with that lock. */
  function Whole(t: Task): Step
    requires Locks(t)
  {
    match t
    case ApplyEdit(id, c) => LockEdit(id, c)
    case ApplyFix(id, c) => LockFix(id, c)
    case ResetStage(id) => LockStage(id)
    case ResetPublish(id) => LockPublish(id)
  }

  /** A request whose lock directly follows its look is the request in one step; if the look does not admit it, that is
      refused, and nothing has changed. */
  lemma SplitIsWhole(x: Race, t: Task)
    requires Locks(t)
    ensures var looked := NextRace(x, Look(t));
            if looked == x then Next(x.world, Whole(t)) == x.world
            else |looked.late| == |x.late| + 1
                 && NextRace(looked, Lock(|x.late|)) == Race(Next(x.world, Whole(t)), x.late)
  {
    hide Executed, RolledBack, Validated, Created;
    var looked := NextRace(x, Look(t));
    if t.id in x.world.releases && Admits(t, x.world.releases[t.id].status) {
      assert |looked.late| == |x.late| + 1;
      assert Dropped(looked.late, |x.late|) == x.late;
    } else {
      assert looked == x;
    }
  }

  /** A lock for staging or publication comes while the release still has the status that was seen. */
  ghost predicate Timely(x: Race, step: RaceStep) {
    match step
    case Lock(k) =>
      k < |x.late| && x.late[k].task.id in x.world.releases ==>
        Awaiting(x.late[k].task) == Editing || x.world.releases[x.late[k].task.id].status == x.late[k].seen
    case _ => true
  }

  ghost predicate TimelyRun(x: Race, steps: seq<RaceStep>)
    decreases |steps|
  {
    steps == [] || (Timely(x, steps[0]) && TimelyRun(NextRace(x, steps[0]), steps[1..]))
  }

  ghost predicate RaceInv(x: Race) {
    && HistoryInv(x.world)
    && forall k | 0 <= k < |x.late| ::
         Locks(x.late[k].task) && Admits(x.late[k].task, x.late[k].seen) && x.late[k].task.id < x.world.next
  }

  lemma DropKeeps(x: Race, k: nat)
    requires RaceInv(x) && k < |x.late|
    ensures RaceInv(x.(late := Dropped(x.late, k)))
  {
    hide HistoryInv, Locks, Admits;
    var late := Dropped(x.late, k);
    assert forall j | 0 <= j < |late| :: late[j] == x.late[if j < k then j else j + 1];
  }

  lemma TimelyLock(w: World, t: Task, seen: Status)
    requires HistoryInv(w) && t.id in w.releases && Locks(t) && Admits(t, seen)
    requires Awaiting(t) == Editing || w.releases[t.id].status == seen
    ensures HistoryInv(Locked(w, t))
  {
    hide HistoryInv;
    var allowed := if Awaiting(t) == Editing then {} else Guard(t);
    assert Locked(w, t) == Requested(w, t.id, allowed, Awaiting(t), t);
    LockKeeps(w, t.id, allowed, Awaiting(t), t);
  }

  lemma UntimelyLock(w: World, t: Task, seen: Status)
    requires HistoryInv(w) && t.id in w.releases && Locks(t) && Admits(t, seen)
    requires Awaiting(t) != Editing && w.releases[t.id].status != seen
    ensures !HistoryInv(Locked(w, t))
  {
    hide Subsequence;
    var r, w' := w.releases[t.id], Locked(w, t);
    RecordedRelease(w, t.id);
    var h' := w'.releases[t.id].history;
    assert h' == r.history + [Awaiting(t)];
    assert !Allowed(h', |r.history|);
  }

  /** A lock keeps every history in order exactly if it is timely. */
  lemma LockExactly(x: Race, k: nat)
    requires RaceInv(x) && k < |x.late|
    ensures RaceInv(NextRace(x, Lock(k))) <==> Timely(x, Lock(k))
  {
    hide HistoryInv, Locks, Admits;
    var q := x.late[k];
    DropKeeps(x, k);
    if q.task.id in x.world.releases {
      if Timely(x, Lock(k)) {
        TimelyLock(x.world, q.task, q.seen);
      } else {
        UntimelyLock(x.world, q.task, q.seen);
      }
    }
  }

  lemma NextNumber(w: World, step: Step)
    ensures Next(w, step).next >= w.next
  {
    hide Validated, StageJob, PublishJob, RolledBack, FixedChecks, Created;
  }

  lemma NextKeepsRace(x: Race, step: RaceStep)
    requires RaceInv(x) && Timely(x, step)
    ensures RaceInv(NextRace(x, step))
  {
    hide HistoryInv, Next;
    match step
    case Look(t) => if t.id in x.world.releases { RecordedRelease(x.world, t.id); }
    case Lock(k) => if k < |x.late| { LockExactly(x, k); }
    case GiveUp(k) => if k < |x.late| { DropKeeps(x, k); }
    case Other(s) =>
      NextKeepsHistory(x.world, s);
      NextNumber(x.world, s);
  }

  lemma {:induction false} RunKeepsRace(x: Race, steps: seq<RaceStep>)
    requires RaceInv(x) && TimelyRun(x, steps)
    ensures RaceInv(EndRace(x, steps))
    decreases |steps|
  {
    hide RaceInv, NextRace, Timely;
    if steps != [] {
      NextKeepsRace(x, steps[0]);
      RunKeepsRace(NextRace(x, steps[0]), steps[1..]);
    }
  }

  /** The order of every history, with reading and locking apart, as long as every lock is timely. */
  lemma LateHistoryOrder(w0: World, steps: seq<RaceStep>, id: ReleaseId, k: nat)
    requires Initial(w0) && TimelyRun(Race(w0, []), steps) && id in EndRace(Race(w0, []), steps).world.releases
    requires k < |EndRace(Race(w0, []), steps).world.releases[id].history|
    ensures var r := EndRace(Race(w0, []), steps).world.releases[id];
            r.status == r.history[|r.history| - 1] && InOrder(r.history, k)
  {
    hide InOrder, Recorded, EndRace, TimelyRun, HistoryInv;
    InitialHistory(w0);
    RunKeepsRace(Race(w0, []), steps);
    var w := EndRace(Race(w0, []), steps).world;
    RecordedRelease(w, id);
    RecordedInOrder(w.releases[id], k);
  }

  const NOTHING := Race(World(map[], map[], [], 0), [])

  const STAGE_REQUEST := ResetStage(0)

  function TwoLocks(c: Content): seq<RaceStep> {
    [Other(Create(c, 0)), Look(STAGE_REQUEST), Look(STAGE_REQUEST), Lock(0), Lock(0)]
  }

  function OneReady(c: Content): World {
    World(map[0 := Created(c, 0)], map[], [], 1)
  }

  lemma BothLook(c: Content)
    ensures NextRace(NOTHING, Other(Create(c, 0))) == Race(OneReady(c), [])
    ensures NextRace(Race(OneReady(c), []), Look(STAGE_REQUEST)) == Race(OneReady(c), [Late(Ready, STAGE_REQUEST)])
    ensures NextRace(Race(OneReady(c), [Late(Ready, STAGE_REQUEST)]), Look(STAGE_REQUEST))
         == Race(OneReady(c), [Late(Ready, STAGE_REQUEST), Late(Ready, STAGE_REQUEST)])
  {
  }

  lemma FirstLocks(w: World, rest: seq<Late>)
    ensures NextRace(Race(w, [Late(Ready, STAGE_REQUEST)] + rest), Lock(0)) == Race(Locked(w, STAGE_REQUEST), rest)
  {
    hide Locked;
    assert Dropped([Late(Ready, STAGE_REQUEST)] + rest, 0) == rest;
  }

  lemma LockedTwice(c: Content)
    ensures Locked(Locked(OneReady(c), STAGE_REQUEST), STAGE_REQUEST)
         == World(map[0 := Release(Staging, [Ready, Staging, Staging], c, 0)], map[], [STAGE_REQUEST, STAGE_REQUEST], 1)
  {
    assert Created(c, 0) == Release(Ready, [] + [Ready], c, 0) == Release(Ready, [Ready], c, 0);
    assert [Ready] + [Staging] == [Ready, Staging] && [Ready, Staging] + [Staging] == [Ready, Staging, Staging];
  }

  /** Two requests that both read ready before either locks: the release is locked for staging twice in a row. */
  lemma TwoRequestsStage(c: Content)
    ensures EndRace(NOTHING, TwoLocks(c)).world
         == World(map[0 := Release(Staging, [Ready, Staging, Staging], c, 0)], map[], [STAGE_REQUEST, STAGE_REQUEST], 1)
  {
    hide NextRace, Locked;
    var q, w := Late(Ready, STAGE_REQUEST), OneReady(c);
    BothLook(c);
    assert [q, q] == [q] + [q] && [q] == [q] + [];
    FirstLocks(w, [q]);
    FirstLocks(Locked(w, STAGE_REQUEST), []);
    LockedTwice(c);
    assert TwoLocks(c)[1..] == [Look(STAGE_REQUEST), Look(STAGE_REQUEST), Lock(0), Lock(0)];
    LastThree(Race(w, []), Race(w, [q]), Race(w, [q, q]), Race(Locked(w, STAGE_REQUEST), [q]));
  }

  lemma LastThree(x1: Race, x2: Race, x3: Race, x4: Race)
    requires x2 == NextRace(x1, Look(STAGE_REQUEST)) && x3 == NextRace(x2, Look(STAGE_REQUEST))
    requires x4 == NextRace(x3, Lock(0))
    ensures EndRace(x1, [Look(STAGE_REQUEST), Look(STAGE_REQUEST), Lock(0), Lock(0)]) == NextRace(x4, Lock(0))
  {
    hide NextRace;
    assert [Look(STAGE_REQUEST), Look(STAGE_REQUEST), Lock(0), Lock(0)][1..] == [Look(STAGE_REQUEST), Lock(0), Lock(0)];
    assert [Look(STAGE_REQUEST), Lock(0), Lock(0)][1..] == [Lock(0), Lock(0)];
    assert [Lock(0), Lock(0)][1..] == [Lock(0)];
    assert EndRace(x4, [Lock(0)]) == NextRace(x4, Lock(0)) by { OneStep(x4, Lock(0)); }
    assert EndRace(x3, [Lock(0), Lock(0)]) == EndRace(x4, [Lock(0)]);
  }

  lemma OneStep(x: Race, step: RaceStep)
    ensures EndRace(x, [step]) == NextRace(x, step)
  {
    hide NextRace;
    assert [step][1..] == [];
  }

  // ---------- Ownership, with reading and locking apart ----------

  ghost predicate NothingWaits(w: World, id: ReleaseId) {
    forall k | 0 <= k < |w.tasks| :: w.tasks[k].id != id
  }

  /** No task waits for the release, and it is in the registry exactly if it is locked for publication (an empty release
      has nothing there). */
  ghost predicate Undisturbed(w: World, t: Task)
    requires t.id in w.releases
  {
    var r := w.releases[t.id];
    && NothingWaits(w, t.id)
    && ((InRegistry(r.status) <==> Awaiting(t) == Publishing) || r.content == Content([], []))
  }

  lemma NothingToRegister(c: Content)
    ensures c == Content([], []) <==> Keys(c) == {} && Mintable(map[], c)
  {
    if c == Content([], []) {
      assert StagedPids(c) == [];
    } else if None !in MintedValues(c.records) && None !in c.documents {
      hide Mintable, RecordPids, SlugPids, MintedValues;
      SomethingToRegister(c);
    }
  }

  lemma SomethingToRegister(c: Content)
    requires c != Content([], []) && None !in MintedValues(c.records) && None !in c.documents
    ensures Keys(c) != {}
  {
    KeysMembers(c);
    if c.documents != [] {
      assert c.documents[0] in c.documents;
      assert DocId(c.documents[0].value) in Keys(c);
    } else {
      ValueCounts(c.records);
      assert MintedValues(c.records)[0] in MintedValues(c.records);
      assert Recid(MintedValues(c.records)[0].value) in Keys(c);
    }
  }

  /** A lock keeps the ownership of identifiers exactly if the release is undisturbed. */
  lemma LockOwnsExactly(w: World, t: Task)
    requires OwnershipInv(w) && t.id in w.releases
    ensures OwnershipInv(Locked(w, t)) <==> Undisturbed(w, t)
  {
    hide OwnershipInv, Keys, Mintable, Owned;
    var r := w.releases[t.id];
    var r', w' := WithStatus(r, Awaiting(t)), Locked(w, t);
    SoundRelease(w, t.id);
    NothingToRegister(r.content);
    if Undisturbed(w, t) {
      UpdateKeepsPids(w, t.id, r', [t]);
    }
    if OwnershipInv(w') {
      SoundRelease(w', t.id);
      assert w'.registry == w.registry && w'.releases[t.id] == r';
      OneTaskEach(w, t);
    }
  }

  lemma OneTaskEach(w: World, t: Task)
    requires t.id in w.releases && OwnershipInv(Locked(w, t))
    ensures NothingWaits(w, t.id)
  {
    hide Sound, Due, Owned;
    var w' := Locked(w, t);
    forall k | 0 <= k < |w.tasks| ensures w.tasks[k].id != t.id {
      assert w'.tasks[k] == w.tasks[k] && w'.tasks[|w.tasks|] == t;
    }
  }

  /** A timely lock for staging or publication finds the release undisturbed. */
  lemma TimelyIsUndisturbed(x: Race, k: nat)
    requires OwnershipInv(x.world) && k < |x.late| && x.late[k].task.id in x.world.releases
    requires Locks(x.late[k].task) && Admits(x.late[k].task, x.late[k].seen) && Awaiting(x.late[k].task) != Editing
    requires Timely(x, Lock(k))
    ensures Undisturbed(x.world, x.late[k].task)
  {
    NoTask(x.world, x.late[k].task.id);
  }

  /** The assumption on a run: locks find their release undisturbed, and the rest is as careful as before. */
  ghost predicate CarefulRace(x: Race, step: RaceStep) {
    match step
    case Lock(k) => k < |x.late| && x.late[k].task.id in x.world.releases ==> Undisturbed(x.world, x.late[k].task)
    case Other(s) => Careful(x.world, s)
    case _ => true
  }

  ghost predicate CarefulRaceRun(x: Race, steps: seq<RaceStep>)
    decreases |steps|
  {
    steps == [] || (CarefulRace(x, steps[0]) && CarefulRaceRun(NextRace(x, steps[0]), steps[1..]))
  }

  lemma NextRaceOwns(x: Race, step: RaceStep)
    requires OwnershipInv(x.world) && CarefulRace(x, step)
    ensures OwnershipInv(NextRace(x, step).world)
  {
    hide OwnershipInv, Next, Undisturbed, Careful;
    match step
    case Look(t) =>
    case Lock(k) =>
      if k < |x.late| && x.late[k].task.id in x.world.releases { LockOwnsExactly(x.world, x.late[k].task); }
    case GiveUp(k) =>
    case Other(s) => NextOwns(x.world, s);
  }

  lemma {:induction false} RunRaceOwns(x: Race, steps: seq<RaceStep>)
    requires OwnershipInv(x.world) && CarefulRaceRun(x, steps)
    ensures OwnershipInv(EndRace(x, steps).world)
    decreases |steps|
  {
    hide OwnershipInv, NextRace, CarefulRace;
    if steps != [] {
      NextRaceOwns(x, steps[0]);
      RunRaceOwns(NextRace(x, steps[0]), steps[1..]);
    }
  }

  /** Ownership in runs of split requests: a release owns the identifiers of all its entries exactly while it is staged,
      being published or published. */
  lemma LateRegistryOwnership(w0: World, steps: seq<RaceStep>, id: ReleaseId)
    requires Initial(w0) && CarefulRaceRun(Race(w0, []), steps)
    ensures var w := EndRace(Race(w0, []), steps).world;
            Owned(w.registry, id) == if id in w.releases then Due(w.releases[id]) else {}
  {
    hide EndRace, CarefulRaceRun;
    InitialOwns(w0);
    RunRaceOwns(Race(w0, []), steps);
  }

  const NEXT_TASK := Run(0, false, 0, 0)

  lemma RunReset(w: World, rest: seq<Task>)
    requires 0 in w.releases && w.tasks == [STAGE_REQUEST] + rest
    ensures Next(w, NEXT_TASK) == With(w, 0, w.releases[0].(numErrors := 0)).(tasks := rest + [StageQueued(0)])
  {
    assert Without(w.tasks, 0) == rest;
  }

  lemma RunStage(w: World, rest: seq<Task>)
    requires 0 in w.releases && w.tasks == [StageQueued(0)] + rest
    ensures var (r, reg) := StageJob(w.releases[0], w.registry, 0, false);
            Next(w, NEXT_TASK) == With(w, 0, r).(registry := reg, tasks := rest)
  {
    hide StageJob;
    assert Without(w.tasks, 0) == rest;
  }

  /** The staging job, twice in a row. */
  lemma StageTwice(r: Release)
    requires r.status == Staging && r.numErrors == 0 && MintAll(map[], Of(0), r.content).Some?
    ensures var (r1, reg1) := StageJob(r, map[], 0, false);
            var (r2, reg2) := StageJob(r1, reg1, 0, false);
            r2.status == Ready && Owned(reg2, 0) == Keys(r.content)
  {
    hide MintAll, Keys;
    StagingExact(map[], Of(0), r.content);
  }

  /** The two staging requests, worked off: the first job registers everything, the second one takes the release for failed
      and sets it back to ready, with all its identifiers registered. */
  lemma TwoRequestsLeave(c: Content)
    requires MintAll(map[], Of(0), c).Some?
    ensures var w := End(EndRace(NOTHING, TwoLocks(c)).world, [NEXT_TASK, NEXT_TASK, NEXT_TASK, NEXT_TASK]);
            0 in w.releases && w.releases[0].status == Ready && Owned(w.registry, 0) == Keys(c)
  {
    hide MintAll, Keys, Next, EndRace, End, StageJob, Owned, TwoLocks;
    TwoRequestsStage(c);
    var w1 := EndRace(NOTHING, TwoLocks(c)).world;
    assert w1.tasks == [STAGE_REQUEST] + [STAGE_REQUEST];
    RunReset(w1, [STAGE_REQUEST]);
    var w2 := Next(w1, NEXT_TASK);
    RunReset(w2, [StageQueued(0)]);
    var w3 := Next(w2, NEXT_TASK);
    RunStage(w3, [StageQueued(0)]);
    var w4 := Next(w3, NEXT_TASK);
    assert w4.tasks == [StageQueued(0)] + [];
    RunStage(w4, []);
    StageTwice(w3.releases[0]);
    FourSteps(w1, w2, w3, w4);
  }

  lemma FourSteps(w1: World, w2: World, w3: World, w4: World)
    requires w2 == Next(w1, NEXT_TASK) && w3 == Next(w2, NEXT_TASK) && w4 == Next(w3, NEXT_TASK)
    ensures End(w1, [NEXT_TASK, NEXT_TASK, NEXT_TASK, NEXT_TASK]) == Next(w4, NEXT_TASK)
  {
    hide Next;
    assert [NEXT_TASK, NEXT_TASK, NEXT_TASK, NEXT_TASK][1..] == [NEXT_TASK, NEXT_TASK, NEXT_TASK];
    assert [NEXT_TASK, NEXT_TASK, NEXT_TASK][1..] == [NEXT_TASK, NEXT_TASK];
    assert [NEXT_TASK, NEXT_TASK][1..] == [NEXT_TASK];
    assert [NEXT_TASK][1..] == [];
    assert End(w4, [NEXT_TASK]) == End(Next(w4, NEXT_TASK), []) == Next(w4, NEXT_TASK);
    assert End(w3, [NEXT_TASK, NEXT_TASK]) == End(w4, [NEXT_TASK]);
  }
}
