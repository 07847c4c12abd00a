/** What the validation of recids reports, and the validation and its fix working on a release in place. */
module RecidValidation {
  import opened Options
  import opened Decimal
  import opened Recid

  // ---------- Validation ----------

  datatype EntryError =
    | MissingRecid(entry: nat)
    | DuplicateRecid(entry: nat, recid: string, first: nat)
    | WrongFormat(entry: nat, recid: string)
    | CollidesWith(entry: nat, recid: string, existing: string)

  /** The rows of the registry come back in no particular order. */
  datatype Report =
    Report(entries: seq<EntryError>, registered: set<string>, format: seq<EntryError>, collisions: set<EntryError>)

  function FirstIndex(recids: seq<Option<string>>, recid: string): (i: nat)
    requires Some(recid) in recids
    ensures i < |recids| && recids[i] == Some(recid)
    ensures forall k | 0 <= k < i :: recids[k] != Some(recid)
  {
    if recids[0] == Some(recid) then 0 else FirstIndex(recids[1..], recid) + 1
  }

  /** A missing recid, or one that is in an entry before; that points to the first occurrence. */
  function ErrorsAt(before: seq<Option<string>>, next: Option<string>): seq<EntryError> {
    var text := TextOf(next);
    if text == "" then [MissingRecid(|before| + 1)]
    else if next in before then [DuplicateRecid(|before| + 1, text, FirstIndex(before, text) + 1)]
    else []
  }

  function EntryErrors(recids: seq<Option<string>>): seq<EntryError> {
    if recids == [] then []
    else
      var n := |recids| - 1;
      EntryErrors(recids[..n]) + ErrorsAt(recids[..n], recids[n])
  }

  function FormatErrors(experiment: string, recids: seq<Option<string>>): seq<EntryError> {
    if recids == [] then []
    else
      var n := |recids| - 1;
      FormatErrors(experiment, recids[..n])
      + if TextOf(recids[n]) != "" && !WellFormed(experiment, recids[n]) then [WrongFormat(n + 1, TextOf(recids[n]))] else []
  }

  function RegisteredRecids(t: Table, recids: seq<Option<string>>): set<string> {
    set i | 0 <= i < |recids| && IsRegistered(t, recids[i]) :: TextOf(recids[i])
  }

  /** The last entry with that number. */
  predicate LastWithNumber(experiment: string, recids: seq<Option<string>>, i: nat)
    requires i < |recids|
  {
    var number := Number(experiment, TextOf(recids[i]));
    number.Some? && forall k | i < k < |recids| :: Number(experiment, TextOf(recids[k])) != number
  }

  function CollisionAt(experiment: string, recids: seq<Option<string>>, i: nat): EntryError
    requires i < |recids| && WellFormed(experiment, recids[i])
  {
    CollidesWith(i + 1, TextOf(recids[i]), Number(experiment, TextOf(recids[i])).value)
  }

  function Collisions(t: Table, experiment: string, recids: seq<Option<string>>): set<EntryError> {
    set i | 0 <= i < |recids| && Collides(t, experiment, recids[i]) && LastWithNumber(experiment, recids, i) ::
      CollisionAt(experiment, recids, i)
  }

  function Validated(t: Table, r: Release): Report {
    Report(EntryErrors(r.recids), if r.staged then {} else RegisteredRecids(t, r.recids),
           FormatErrors(r.experiment, r.recids), Collisions(t, r.experiment, r.recids))
  }

  predicate OnlyDuplicates(report: Report) {
    && (forall i | 0 <= i < |report.entries| :: report.entries[i].DuplicateRecid?)
    && report.registered == {} && report.format == [] && report.collisions == {}
  }

  lemma LastErrors(before: seq<Option<string>>, next: Option<string>)
    ensures var last := ErrorsAt(before, next);
            (forall i | 0 <= i < |last| :: last[i].DuplicateRecid?) <==> TextOf(next) != ""
  {
    hide FirstIndex;
    var last := ErrorsAt(before, next);
    if TextOf(next) == "" {
      assert last[0].MissingRecid?;
    }
  }

  lemma DuplicatesJoin(a: seq<EntryError>, b: seq<EntryError>)
    ensures (forall i | 0 <= i < |a + b| :: (a + b)[i].DuplicateRecid?)
       <==> (forall i | 0 <= i < |a| :: a[i].DuplicateRecid?) && forall i | 0 <= i < |b| :: b[i].DuplicateRecid?
  {
    if forall i | 0 <= i < |a + b| :: (a + b)[i].DuplicateRecid? {
      assert forall i | 0 <= i < |a| :: (a + b)[i] == a[i];
      assert forall i | 0 <= i < |b| :: (a + b)[|a| + i] == b[i];
    }
  }

  lemma {:induction false} EntryErrorsMissing(recids: seq<Option<string>>)
    ensures (forall i | 0 <= i < |EntryErrors(recids)| :: EntryErrors(recids)[i].DuplicateRecid?) <==>
              (forall i | 0 <= i < |recids| :: TextOf(recids[i]) != "")
  {
    hide ErrorsAt, TextOf;
    if recids != [] {
      var n := |recids| - 1;
      var init, last := EntryErrors(recids[..n]), ErrorsAt(recids[..n], recids[n]);
      EntryErrorsMissing(recids[..n]);
      assert EntryErrors(recids) == init + last;
      assert (forall i | 0 <= i < |last| :: last[i].DuplicateRecid?) <==> TextOf(recids[n]) != "" by {
        LastErrors(recids[..n], recids[n]);
      }
      DuplicatesJoin(init, last);
    }
  }

  lemma {:induction false} FormatErrorsExact(experiment: string, recids: seq<Option<string>>)
    ensures FormatErrors(experiment, recids) == [] <==>
              (forall i | 0 <= i < |recids| :: TextOf(recids[i]) == "" || WellFormed(experiment, recids[i]))
  {
    hide WellFormed;
    if recids != [] {
      var n := |recids| - 1;
      FormatErrorsExact(experiment, recids[..n]);
      assert recids == recids[..n] + [recids[n]];
    }
  }

  /** Some entry is the last with that number. */
  lemma {:induction false} LastExists(experiment: string, recids: seq<Option<string>>, i: nat) returns (last: nat)
    requires i < |recids| && WellFormed(experiment, recids[i])
    ensures i <= last < |recids| && LastWithNumber(experiment, recids, last)
    ensures Number(experiment, TextOf(recids[last])) == Number(experiment, TextOf(recids[i]))
    decreases |recids| - i
  {
    hide Number;
    if LastWithNumber(experiment, recids, i) {
      last := i;
    } else {
      var k :| i < k < |recids| && Number(experiment, TextOf(recids[k])) == Number(experiment, TextOf(recids[i]));
      last := LastExists(experiment, recids, k);
    }
  }

  lemma CollisionsExact(t: Table, experiment: string, recids: seq<Option<string>>)
    ensures Collisions(t, experiment, recids) == {} <==> (forall i | 0 <= i < |recids| :: !Collides(t, experiment, recids[i]))
  {
    hide Number;
    if i :| 0 <= i < |recids| && Collides(t, experiment, recids[i]) {
      var last := LastExists(experiment, recids, i);
      assert CollisionAt(experiment, recids, last) in Collisions(t, experiment, recids);
    }
  }

  /** Before staging, validation reports nothing but repetitions exactly if nothing is left to fix. */
  lemma ValidationExact(t: Table, r: Release)
    requires !r.staged
    ensures OnlyDuplicates(Validated(t, r)) <==> AllGood(t, r)
  {
    hide WellFormed, Collides, EntryErrors, FormatErrors, Collisions;
    EntryErrorsMissing(r.recids);
    FormatErrorsExact(r.experiment, r.recids);
    CollisionsExact(t, r.experiment, r.recids);
    forall i | 0 <= i < |r.recids| && WellFormed(r.experiment, r.recids[i]) ensures TextOf(r.recids[i]) != "" {
      WellFormedIsText(r.experiment, r.recids[i]);
    }
    assert RegisteredRecids(t, r.recids) == {} <==> forall i | 0 <= i < |r.recids| :: !IsRegistered(t, r.recids[i]) by {
      RegisteredExact(t, r.recids);
    }
  }

  lemma WellFormedIsText(experiment: string, recid: Option<string>)
    requires WellFormed(experiment, recid)
    ensures TextOf(recid) != ""
  {
  }

  lemma RegisteredExact(t: Table, recids: seq<Option<string>>)
    ensures RegisteredRecids(t, recids) == {} <==> forall i | 0 <= i < |recids| :: !IsRegistered(t, recids[i])
  {
    if i :| 0 <= i < |recids| && IsRegistered(t, recids[i]) {
      assert TextOf(recids[i]) in RegisteredRecids(t, recids);
    }
  }

  // ---------- The validation, working on the release in place ----------

  class ValidRecid {
    const table: Table
    const experiment: string
    const staged: bool
    var recids: seq<Option<string>>
    var maxRecid: nat

    constructor (table: Table, r: Release)
      ensures this.table == table && View() == r
    {
      this.table := table;
      experiment, staged, recids, maxRecid := r.experiment, r.staged, r.recids, r.maxRecid;
    }

    function View(): Release
      reads this
    {
      Release(experiment, recids, maxRecid, staged)
    }

    method NumericCollisions() returns (collisions: set<EntryError>)
      ensures collisions == Collisions(table, experiment, recids)
    {
      hide Number, Collisions, LastWithNumber, LastByNumber;
      var byNumber: map<string, nat> := map[];
      NothingByNumber(experiment);
      for i := 0 to |recids|
        invariant LastByNumber(byNumber, experiment, recids[..i])
      {
        var number := Number(experiment, TextOf(recids[i]));
        assert recids[..i + 1] == recids[..i] + [recids[i]];
        LastByNumberNext(byNumber, experiment, recids[..i], recids[i]);
        if number.Some? {
          byNumber := byNumber[number.value := i];
        }
      }
      assert recids[..|recids|] == recids;
      CollisionsIndexed(byNumber, table, experiment, recids);
      collisions := IndexedErrors(byNumber, table, recids);
    }

    method CheckEntries() returns (entries: seq<EntryError>)
      ensures entries == EntryErrors(recids)
    {
      hide FirstIndex, FirstSeen, EntryErrors;
      entries := [];
      var seen: map<string, nat> := map[];
      NothingSeen();
      for i := 0 to |recids|
        invariant entries == EntryErrors(recids[..i])
        invariant FirstSeen(seen, recids[..i])
      {
        assert recids[..i + 1] == recids[..i] + [recids[i]];
        var value := TextOf(recids[i]);
        FirstSeenNext(seen, recids[..i], recids[i]);
        EntryErrorsNext(seen, recids[..i], recids[i]);
        if value == "" {
          entries := entries + [MissingRecid(i + 1)];
        } else if value in seen {
          entries := entries + [DuplicateRecid(i + 1, value, seen[value] + 1)];
        } else {
          seen := seen[value := i];
        }
      }
      assert recids[..|recids|] == recids;
    }

    method CheckFormat() returns (format: seq<EntryError>)
      ensures format == FormatErrors(experiment, recids)
    {
      hide WellFormed;
      format := [];
      for i := 0 to |recids|
        invariant format == FormatErrors(experiment, recids[..i])
      {
        assert recids[..i + 1][..i] == recids[..i];
        if TextOf(recids[i]) != "" && !WellFormed(experiment, recids[i]) {
          format := format + [WrongFormat(i + 1, TextOf(recids[i]))];
        }
      }
      assert recids[..|recids|] == recids;
    }

    method Validate() returns (report: Report)
      ensures report == Validated(table, View())
    {
      hide EntryErrors, FormatErrors, Collisions, RegisteredRecids;
      var entries := CheckEntries();
      var registered := if staged then {} else RegisteredRecids(table, recids);
      var format := CheckFormat();
      var collisions := NumericCollisions();
      report := Report(entries, registered, format, collisions);
    }

    /** One iteration of the loop of Fix. */
    method FixEntry(i: nat, counter: nat) returns (counter': nat)
      requires i < |recids|
      modifies this`recids, this`maxRecid
      ensures var (recid, counted) := FixOne(table, experiment, old(recids)[i], counter);
              && recids == old(recids)[i := recid]
              && (if counted then counter' == counter + 1 && maxRecid == counter
                  else counter' == counter && maxRecid == old(maxRecid))
    {
      hide WellFormed, Collides, IsRegistered, WithPrefix, Render;
      var recid := recids[i];
      var registered, collision := IsRegistered(table, recid), Collides(table, experiment, recid);
      counter' := counter;
      if !registered && !collision && WellFormed(experiment, recid) {
        return;
      }
      if !registered && IsDigits(TextOf(recid)) {
        recids := recids[i := Some(WithPrefix(experiment, TextOf(recid)))];
      } else {
        recids := recids[i := Some(WithPrefix(experiment, Render(counter)))];
        maxRecid := counter;
        counter' := counter + 1;
      }
    }

    /** Fails, without any change, when the start of the counter cannot be computed. */
    method Fix(others: nat) returns (ok: bool)
      modifies this`recids, this`maxRecid
      ensures ok == Fixed(table, old(View()), others).Some?
      ensures View() == if ok then Fixed(table, old(View()), others).value else old(View())
    {
      hide NextStart, FixOne, FixAll;
      ghost var before := recids;
      var start := NextStart(table, View(), others);
      if start.None? {
        return false;
      }
      var counter := start.value;
      FixAllNothing(table, experiment, counter);
      for i := 0 to |recids|
        invariant |recids| == |before| && counter >= start.value
        invariant (recids[..i], counter) == FixAll(table, experiment, before[..i], start.value)
        invariant recids[i..] == before[i..]
        invariant maxRecid == if counter > start.value then counter - 1 else old(maxRecid)
      {
        assert before[..i + 1] == before[..i] + [before[i]];
        FixAllNext(table, experiment, before[..i], before[i], start.value);
        assert recids[i] == recids[i..][0] == before[i];
        ghost var done, rest := recids[..i], recids[i..];
        counter := FixEntry(i, counter);
        assert recids[..i + 1] == done + [recids[i]];
        assert recids[i + 1..] == rest[1..] == before[i + 1..];
      }
      assert before[..|recids|] == before && recids[..|recids|] == recids;
      return true;
    }
  }

  lemma FixAllNothing(t: Table, experiment: string, counter: nat)
    ensures FixAll(t, experiment, [], counter) == ([], counter)
  {
  }

  lemma FixAllNext(t: Table, experiment: string, init: seq<Option<string>>, next: Option<string>, counter: nat)
    ensures var (done, counter1) := FixAll(t, experiment, init, counter);
            var (last, counted) := FixOne(t, experiment, next, counter1);
            FixAll(t, experiment, init + [next], counter) == (done + [last], if counted then counter1 + 1 else counter1)
  {
    hide FixOne;
    assert (init + [next])[..|init|] == init;
  }

  // ---------- What the dictionaries of the loops hold ----------

  /** Each value that occurs, with its first position. */
  ghost predicate FirstSeen(seen: map<string, nat>, recids: seq<Option<string>>) {
    && (forall v :: v in seen <==> v != "" && Some(v) in recids)
    && (forall v | v in seen :: seen[v] == FirstIndex(recids, v))
  }

  lemma NothingSeen()
    ensures FirstSeen(map[], []) && EntryErrors([]) == []
  {
  }

  lemma EntryErrorsAppend(recids: seq<Option<string>>, next: Option<string>)
    ensures EntryErrors(recids + [next]) == EntryErrors(recids) + ErrorsAt(recids, next)
  {
    hide ErrorsAt;
    assert (recids + [next])[..|recids|] == recids;
  }

  lemma SeenAt(seen: map<string, nat>, recids: seq<Option<string>>, v: string)
    requires FirstSeen(seen, recids)
    ensures v in seen <==> v != "" && Some(v) in recids
    ensures v in seen ==> seen[v] == FirstIndex(recids, v)
  {
    hide FirstIndex;
  }

  lemma EntryErrorsNext(seen: map<string, nat>, recids: seq<Option<string>>, next: Option<string>)
    requires FirstSeen(seen, recids)
    ensures var v := TextOf(next);
            EntryErrors(recids + [next]) == EntryErrors(recids)
              + if v == "" then [MissingRecid(|recids| + 1)]
                else if v in seen then [DuplicateRecid(|recids| + 1, v, seen[v] + 1)]
                else []
  {
    hide FirstIndex, FirstSeen, EntryErrors;
    EntryErrorsAppend(recids, next);
    SeenAt(seen, recids, TextOf(next));
    assert TextOf(next) != "" ==> next == Some(TextOf(next));
  }

  lemma FirstSeenNext(seen: map<string, nat>, recids: seq<Option<string>>, next: Option<string>)
    requires FirstSeen(seen, recids)
    ensures var v := TextOf(next);
            FirstSeen(if v == "" || v in seen then seen else seen[v := |recids|], recids + [next])
  {
    hide FirstIndex;
    var all, v := recids + [next], TextOf(next);
    forall u | Some(u) in recids ensures FirstIndex(all, u) == FirstIndex(recids, u) {
      FirstIndexKept(recids, next, u);
    }
    if v != "" && v !in seen {
      assert all[|recids|] == Some(v) && Some(v) in all;
      assert FirstIndex(all, v) == |recids|;
    }
  }

  lemma FirstIndexKept(recids: seq<Option<string>>, next: Option<string>, recid: string)
    requires Some(recid) in recids
    ensures FirstIndex(recids + [next], recid) == FirstIndex(recids, recid)
  {
    hide FirstIndex;
    var i, j := FirstIndex(recids + [next], recid), FirstIndex(recids, recid);
    assert (recids + [next])[j] == Some(recid);
    assert i < |recids| ==> recids[i] == (recids + [next])[i];
    assert forall k | 0 <= k < |recids| :: (recids + [next])[k] == recids[k];
  }

  /** Each number that occurs, with its last position. */
  ghost predicate LastByNumber(byNumber: map<string, nat>, experiment: string, recids: seq<Option<string>>) {
    && (forall d | d in byNumber ::
          byNumber[d] < |recids| && Number(experiment, TextOf(recids[byNumber[d]])) == Some(d))
    && (forall k | 0 <= k < |recids| ::
          var number := Number(experiment, TextOf(recids[k]));
          number.Some? ==> number.value in byNumber && k <= byNumber[number.value])
  }

  lemma NothingByNumber(experiment: string)
    ensures LastByNumber(map[], experiment, [])
  {
  }

  lemma IndexedInRange(byNumber: map<string, nat>, experiment: string, recids: seq<Option<string>>)
    requires LastByNumber(byNumber, experiment, recids)
    ensures forall d | d in byNumber :: byNumber[d] < |recids|
  {
  }

  lemma LastByNumberNext(byNumber: map<string, nat>, experiment: string, recids: seq<Option<string>>, next: Option<string>)
    requires LastByNumber(byNumber, experiment, recids)
    ensures var number := Number(experiment, TextOf(next));
            LastByNumber(if number.Some? then byNumber[number.value := |recids|] else byNumber, experiment, recids + [next])
  {
    hide Number;
  }

  lemma CollisionMember(t: Table, experiment: string, recids: seq<Option<string>>, i: nat)
    requires i < |recids| && Collides(t, experiment, recids[i]) && LastWithNumber(experiment, recids, i)
    ensures CollisionAt(experiment, recids, i) in Collisions(t, experiment, recids)
  {
    hide Number, LastWithNumber;
  }

  lemma LastIsIndexed(byNumber: map<string, nat>, experiment: string, recids: seq<Option<string>>, d: string)
    requires LastByNumber(byNumber, experiment, recids) && d in byNumber
    ensures LastWithNumber(experiment, recids, byNumber[d])
  {
    hide Number;
  }

  lemma IndexedIsLast(byNumber: map<string, nat>, experiment: string, recids: seq<Option<string>>, i: nat)
    requires LastByNumber(byNumber, experiment, recids) && i < |recids| && LastWithNumber(experiment, recids, i)
    ensures var d := Number(experiment, TextOf(recids[i])).value; d in byNumber && byNumber[d] == i
  {
    hide Number;
  }

  lemma IndexedCollides(byNumber: map<string, nat>, t: Table, experiment: string, recids: seq<Option<string>>, d: string)
    requires LastByNumber(byNumber, experiment, recids) && d in byNumber && Row(d, true) in t
    ensures CollidesWith(byNumber[d] + 1, TextOf(recids[byNumber[d]]), d) in Collisions(t, experiment, recids)
  {
    hide Number, LastWithNumber, Collisions;
    LastIsIndexed(byNumber, experiment, recids, d);
    CollisionMember(t, experiment, recids, byNumber[d]);
  }

  function IndexedErrors(byNumber: map<string, nat>, t: Table, recids: seq<Option<string>>): set<EntryError>
    requires forall d | d in byNumber :: byNumber[d] < |recids|
  {
    set d | d in byNumber && Row(d, true) in t :: CollidesWith(byNumber[d] + 1, TextOf(recids[byNumber[d]]), d)
  }

  lemma CollisionsIndexed(byNumber: map<string, nat>, t: Table, experiment: string, recids: seq<Option<string>>)
    requires LastByNumber(byNumber, experiment, recids)
    ensures forall d | d in byNumber :: byNumber[d] < |recids|
    ensures IndexedErrors(byNumber, t, recids) == Collisions(t, experiment, recids)
  {
    hide Number, LastWithNumber, LastByNumber;
    IndexedInRange(byNumber, experiment, recids);
    forall e | e in IndexedErrors(byNumber, t, recids) ensures e in Collisions(t, experiment, recids) {
      var d :| d in byNumber && Row(d, true) in t && e == CollidesWith(byNumber[d] + 1, TextOf(recids[byNumber[d]]), d);
      IndexedCollides(byNumber, t, experiment, recids, d);
    }
    forall e | e in Collisions(t, experiment, recids) ensures e in IndexedErrors(byNumber, t, recids) {
      var i :| 0 <= i < |recids| && Collides(t, experiment, recids[i]) && LastWithNumber(experiment, recids, i)
               && e == CollisionAt(experiment, recids, i);
      IndexedIsLast(byNumber, experiment, recids, i);
    }
  }
}
