/** A request from beginning to end: what asking does, and when what was asked for has arrived. */
module ColdRequest {
  import opened Options
  import opened ColdTypes
  import opened ColdModel
  import opened Locations
  import opened Catalog
  import opened Manager
  import opened Service
  import opened ColdInvariant
  import opened ColdPreservation
  import opened ColdRuns
  import opened ColdBudget
  import opened ColdDrain

  // ---------- Asking ----------

  /** Exactly one submitted request was added, and the tables of files, tags and transfers are the same. */
  ghost predicate OneMore(s: Store, s': Store, request: Request) {
    && s'.requests == s.requests + [request]
    && s'.layout == s.layout && s'.tags == s.tags && s'.transfers == s.transfers && s'.disk == s.disk
    && s'.records.Keys == s.records.Keys
  }

  /** Asking for a record, or one of its indices, adds one request and shows the record as requested; with an invalid
      address nothing is asked for. */
  lemma AskStageExact(c: Config, s: Store, r: RecordId, file: string, emailValid: bool)
    requires r in s.records
    ensures var s' := Next(c, s, AskStage(r, file, emailValid));
            if emailValid then
              && OneMore(s, s', Request(r, Stage, file, Submitted, 0, 0, 0))
              && s'.records[r] == s.records[r].(availability := Requested)
              && (forall q | q in s.records && q != r :: s'.records[q] == s.records[q])
              && StageRequested(s', r)
            else s' == s
  {
    var s' := Next(c, s, AskStage(r, file, emailValid));
    if emailValid {
      assert s'.requests[|s.requests|] == Request(r, Stage, file, Submitted, 0, 0, 0);
    }
  }

  lemma AskArchiveExact(c: Config, s: Store, r: RecordId, file: string)
    requires r in s.records
    ensures var s' := Next(c, s, AskArchive(r, file));
            OneMore(s, s', Request(r, Archive, file, Submitted, 0, 0, 0)) && s'.records == s.records
  {
  }

  // ---------- The files asked for ----------

  /** The row is one of the record's files, or of the files of an index with that name. */
  ghost predicate AskedFor(l: Layout, file: string, row: FileRow) {
    || (file == "" && row in l.direct)
    || exists i :: 0 <= i < |l.indices| && (file == "" || l.indices[i].key == file) && row in l.indices[i].files
  }

  lemma {:induction false} NamedRowsHas(indices: seq<IndexRow>, name: string, row: FileRow)
    ensures row in NamedRows(indices, name) <==>
      exists i :: 0 <= i < |indices| && (name == "" || indices[i].key == name) && row in indices[i].files
  {
    if indices != [] {
      var rest := indices[1..];
      NamedRowsHas(rest, name, row);
      if i :| 0 <= i < |indices| && (name == "" || indices[i].key == name) && row in indices[i].files {
        assert i > 0 ==> rest[i - 1] == indices[i];
      }
      if i :| 0 <= i < |rest| && (name == "" || rest[i].key == name) && row in rest[i].files {
        assert indices[i + 1] == rest[i];
      }
    }
  }

  lemma SelectedIsAskedFor(l: Layout, file: string, row: FileRow)
    ensures row in SelectedBy(l, file) <==> AskedFor(l, file, row)
  {
    NamedRowsHas(l.indices, file, row);
  }

  // ---------- Round after round ----------

  /** The stage request is served, and asks for the same as before. */
  ghost predicate StillServed(s: Store, s': Store, k: nat) {
    && k < |s.requests| && k < |s'.requests| && s'.layout == s.layout
    && s'.requests[k].action == s.requests[k].action == Stage
    && s'.requests[k].record == s.requests[k].record && s'.requests[k].file == s.requests[k].file
    && Served(s', k)
  }

  lemma PassServes(s: Store, room: int, s1: Store, issued: nat, s': Store, k: nat)
    requires Drained(s, StillSubmitted(s), room, s1, issued) && SameStaging(s1, s')
    requires k < |s.requests| && s.requests[k].action == Stage && Served(s, k)
    ensures StillServed(s, s', k)
  {
    hide Wanted, WantedBy, Open, RequestIds, TagsOf;
    SameWanted(s1, s', k);
    RequestListed(s.requests, Submitted, Stage, k);
    assert Wanted(s1, k) <= Wanted(s, k);
  }

  lemma RoundServes(c: Config, s: Store, round: Round, k: nat)
    requires Inv(s) && Stageable(c.locations, s) && Idle(s) && c.stageThreshold >= 1 && Fits(c, s, round)
    requires k < |s.requests| && s.requests[k].action == Stage && Served(s, k)
    ensures StillServed(s, AfterRound(c, s, round), k)
  {
    hide Inv, SubmittedChecked, TransfersProcessed, Drained, SameStaging, Served;
    var issued, s1 := PassDrains(c, s, round.envs);
    var s2, s3 := SubmittedChecked(c, s, round.envs), AfterRound(c, s, round);
    SettleSame(s2, round.order);
    SameStagingJoin(s1, s2, s3);
    PassServes(s, c.stageThreshold, s1, issued, s3, k);
  }

  lemma {:induction false} RoundsServe(c: Config, s: Store, rounds: seq<Round>, k: nat)
    requires Inv(s) && Stageable(c.locations, s) && Idle(s) && c.stageThreshold >= 1 && FitAll(c, s, rounds)
    requires k < |s.requests| && s.requests[k].action == Stage && Served(s, k)
    ensures var s' := AfterRounds(c, s, rounds); Inv(s') && Idle(s') && StillServed(s, s', k)
    decreases |rounds|
  {
    hide Inv, Stageable, Idle, Fits, AfterRound, Served;
    if rounds != [] {
      RoundDrains(c, s, rounds[0]);
      RoundServes(c, s, rounds[0], k);
      RoundsServe(c, AfterRound(c, s, rounds[0]), rounds[1..], k);
    }
  }

  // ---------- The end ----------

  lemma WantsOpen(s: Store, rows: seq<FileRow>, i: nat)
    requires i < |rows|
    ensures Open(s, rows[i].id) ==> OpenRows(s, rows) != {}
  {
    hide Open;
    assert Open(s, rows[i].id) ==> rows[i].id in OpenRows(s, rows);
  }

  /** With every transfer finished, a started request without a wish has none of its files removed. */
  lemma NothingRemoved(s: Store, k: nat, row: FileRow)
    requires Idle(s) && k < |s.requests| && s.requests[k].record in s.layout && Wanted(s, k) == {}
    requires AskedFor(s.layout[s.requests[k].record], s.requests[k].file, row)
    ensures !TagsOf(s.tags, row.id).hotDeleted
  {
    hide AskedFor;
    var q := s.requests[k];
    SelectedIsAskedFor(s.layout[q.record], q.file, row);
    var rows := SelectedBy(s.layout[q.record], q.file);
    var i :| 0 <= i < |rows| && rows[i] == row;
    assert !IsScheduled(s, row.id, Stage);
    WantsOpen(s, rows, i);
  }

  /** With every transfer finished and no stage request submitted, nothing is pending for any record. */
  lemma NothingPending(s: Store, r: RecordId)
    requires Idle(s) && StillSubmitted(s) == []
    ensures !StagePending(s, r)
  {
    WaitingRequests(s);
  }

  lemma ServedCompletes(s: Store, k: nat, row: FileRow)
    requires Inv(s) && Idle(s) && StillSubmitted(s) == []
    requires k < |s.requests| && s.requests[k].action == Stage && Served(s, k)
    ensures var s' := RunningChecked(s);
            && s'.layout == s.layout && |s'.requests| == |s.requests|
            && s'.requests[k].record == s.requests[k].record && s'.requests[k].status == Completed
            && s.requests[k].record in s.layout
            && (AskedFor(s.layout[s.requests[k].record], s.requests[k].file, row) ==> !TagsOf(s'.tags, row.id).hotDeleted)
  {
    hide Inv, StagePending, RunningChecked, StillSubmitted, AskedFor, Wanted;
    var s', q := RunningChecked(s), s.requests[k];
    WaitingRequests(s);
    CompletionExact(s, k);
    NothingPending(s, q.record);
    SamePendingDue(s, s', q, s'.requests[k]);
    RequestResolves(s, k);
    RecordAgrees(s, q.record);
    if AskedFor(s.layout[q.record], q.file, row) {
      NothingRemoved(s, k, row);
    }
  }

  // ---------- The steps of the rounds ----------

  ghost function StepsOf(rounds: seq<Round>): seq<Step> {
    if rounds == [] then [] else [Submit(rounds[0].envs), Poll(rounds[0].order, ALL_DONE)] + StepsOf(rounds[1..])
  }

  lemma {:induction false} RoundsAreSteps(c: Config, s: Store, rounds: seq<Round>, last: Step)
    requires FitAll(c, s, rounds) && Enabled(AfterRounds(c, s, rounds), last)
    ensures var steps := StepsOf(rounds) + [last];
            Possible(c, s, steps) && End(c, s, steps) == Next(c, AfterRounds(c, s, rounds), last)
    decreases |rounds|
  {
    hide SubmittedChecked, TransfersProcessed, Ongoing, UserStage, RunningChecked, RecordMoved, RecordCleared;
    if rounds == [] {
      ThenStep(c, s, last, []);
      assert StepsOf(rounds) + [last] == [last] + [];
    } else {
      var next, tail := AfterRound(c, s, rounds[0]), StepsOf(rounds[1..]) + [last];
      RoundsAreSteps(c, next, rounds[1..], last);
      var submit, poll := Submit(rounds[0].envs), Poll(rounds[0].order, ALL_DONE);
      ThenStep(c, Next(c, s, submit), poll, tail);
      ThenStep(c, s, submit, [poll] + tail);
      assert StepsOf(rounds) + [last] == [submit] + ([poll] + tail);
    }
  }

  /** From asking to having: a user asks for a record or an index, the passes follow, each with its transfers done, at
      least K / T + 1 of them for K distinct files to stage and a threshold T, and then requests are completed: the request
      is completed, and no file that it asked for is marked removed. */
  lemma AskedIsStaged(c: Config, s: Store, r: RecordId, file: string, rounds: seq<Round>, row: FileRow)
    requires Inv(s) && Idle(s) && c.stageThreshold >= 1 && r in s.records
    requires var s1 := Next(c, s, AskStage(r, file, true));
             && Stageable(c.locations, s1) && FitAll(c, s1, rounds)
             && |rounds| >= |Backlog(s1)| / c.stageThreshold + 1
    ensures var steps, k := [AskStage(r, file, true)] + StepsOf(rounds) + [Complete], |s.requests|;
            && Possible(c, s, steps)
            && var s' := End(c, s, steps);
            && k < |s'.requests| && s'.requests[k].record == r && s'.requests[k].status == Completed
            && s'.layout == s.layout && r in s.layout
            && (AskedFor(s.layout[r], file, row) ==> !TagsOf(s'.tags, row.id).hotDeleted)
  {
    hide Inv, Idle, Stageable, FitAll, AfterRounds, Served, AskedFor, UserStage, RunningChecked, Backlog, StillSubmitted,
         RequestIds, Possible, End;
    var ask, k := AskStage(r, file, true), |s.requests|;
    var s1 := Next(c, s, ask);
    AskStageExact(c, s, r, file, true);
    NextKeeps(c, s, ask);
    assert Idle(s1) && Served(s1, k) by { JustAsked(s, s1, r, file); }
    WaitingRequests(s1);
    assert k in StillSubmitted(s1);
    DrainBound(c, s1, rounds);
    RoundsServe(c, s1, rounds, k);
    var s2 := AfterRounds(c, s1, rounds);
    ServedCompletes(s2, k, row);
    RoundsAreSteps(c, s1, rounds, Complete);
    ThenStep(c, s, ask, StepsOf(rounds) + [Complete]);
    assert [ask] + (StepsOf(rounds) + [Complete]) == [ask] + StepsOf(rounds) + [Complete];
  }

  lemma JustAsked(s: Store, s1: Store, r: RecordId, file: string)
    requires Idle(s) && OneMore(s, s1, Request(r, Stage, file, Submitted, 0, 0, 0))
    ensures Idle(s1) && Served(s1, |s.requests|)
  {
  }
}
