/** Record identifiers, and the fix that assigns new ones from a counter. */
module Recid {
  import opened Arithmetic
  import opened Options
  import opened Decimal
  import opened Text

  /** A recid identifier of the registry; only some of them have the registered status. */
  datatype Row = Row(value: string, registered: bool)

  type Table = seq<Row>

  datatype Release = Release(experiment: string, recids: seq<Option<string>>, maxRecid: nat, staged: bool)

  // ---------- The format ----------

  function WithPrefix(experiment: string, number: string): string {
    experiment + "-" + number
  }

  /** The digits after the experiment's prefix, if the recid has the required format. */
  function Number(experiment: string, recid: string): (r: Option<string>)
    ensures r.Some? ==> recid == WithPrefix(experiment, r.value) && IsDigits(r.value)
  {
    var prefix := experiment + "-";
    if prefix <= recid && IsDigits(recid[|prefix|..]) then Some(recid[|prefix|..]) else None
  }

  function TextOf(recid: Option<string>): string {
    if recid.Some? then recid.value else ""
  }

  predicate IsRegistered(t: Table, recid: Option<string>) {
    TextOf(recid) != "" && Row(TextOf(recid), true) in t
  }

  /** Its number is registered as a plain numeric recid. */
  predicate Collides(t: Table, experiment: string, recid: Option<string>) {
    var n := Number(experiment, TextOf(recid));
    n.Some? && Row(n.value, true) in t
  }

  predicate WellFormed(experiment: string, recid: Option<string>) {
    Number(experiment, TextOf(recid)).Some?
  }

  /** Nothing to fix. */
  predicate Good(t: Table, experiment: string, recid: Option<string>) {
    WellFormed(experiment, recid) && !IsRegistered(t, recid) && !Collides(t, experiment, recid)
  }

  // ---------- Where the counter starts ----------

  const MAX_INTEGER := 0x7fff_ffff

  /** The conversion of the database: digits only, within 32 bits. */
  function Cast(s: string): (r: Option<nat>)
    ensures r.Some? ==> IsDigits(s) && r.value == Value(s)
  {
    if IsDigits(s) && Value(s) <= MAX_INTEGER then Some(Value(s)) else None
  }

  /** The second field of a value split at '-'. */
  function SecondField(value: string): string {
    match Cut(value, '-')
    case None => ""
    case Some((_, rest)) => Before(rest, '-')
  }

  predicate OfExperiment(experiment: string, value: string) {
    experiment + "-" <= value
  }

  /** The largest number used by a recid of the experiment; None when a conversion fails. */
  function MaxOfExperiment(t: Table, experiment: string): Option<nat> {
    if t == [] then Some(0)
    else
      var n := |t| - 1;
      match MaxOfExperiment(t[..n], experiment)
      case None => None
      case Some(m) =>
        if !OfExperiment(experiment, t[n].value) then Some(m)
        else
          match Cast(SecondField(t[n].value))
          case None => None
          case Some(v) => Some(Max(m, v))
  }

  /** The largest recid that is just a number; None when a conversion fails. */
  function MaxNumeric(t: Table): Option<nat> {
    if t == [] then Some(0)
    else
      var n := |t| - 1;
      match MaxNumeric(t[..n])
      case None => None
      case Some(m) =>
        if !IsDigits(t[n].value) then Some(m)
        else
          match Cast(t[n].value)
          case None => None
          case Some(v) => Some(Max(m, v))
  }

  /** The start of the counter; the other releases of the experiment recorded numbers up to others. */
  function NextStart(t: Table, r: Release, others: nat): Option<nat> {
    match MaxOfExperiment(t, r.experiment)
    case None => None
    case Some(m) =>
      match MaxNumeric(t)
      case None => None
      case Some(k) => Some(Max(Max(Max(others, r.maxRecid), m), k) + 1)
  }

  // ---------- The fix ----------

  /** The new recid, and whether it takes a number from the counter. */
  function FixOne(t: Table, experiment: string, recid: Option<string>, counter: nat): (Option<string>, bool) {
    if Good(t, experiment, recid) then (recid, false)
    else if !IsRegistered(t, recid) && IsDigits(TextOf(recid)) then (Some(WithPrefix(experiment, TextOf(recid))), false)
    else (Some(WithPrefix(experiment, Render(counter))), true)
  }

  function FixAll(t: Table, experiment: string, recids: seq<Option<string>>, counter: nat): (r: (seq<Option<string>>, nat))
    ensures |r.0| == |recids| && counter <= r.1
  {
    if recids == [] then ([], counter)
    else
      var n := |recids| - 1;
      var (init, counter1) := FixAll(t, experiment, recids[..n], counter);
      var (last, counted) := FixOne(t, experiment, recids[n], counter1);
      (init + [last], if counted then counter1 + 1 else counter1)
  }

  /** One round of the fix; None when it fails before changing anything. */
  function Fixed(t: Table, r: Release, others: nat): Option<Release> {
    match NextStart(t, r, others)
    case None => None
    case Some(start) =>
      var (recids, counter) := FixAll(t, r.experiment, r.recids, start);
      Some(r.(recids := recids, maxRecid := if counter > start then counter - 1 else r.maxRecid))
  }

  // ---------- The start of the counter ----------

  lemma {:induction false} MaxOfExperimentBounds(t: Table, experiment: string, row: Row)
    requires MaxOfExperiment(t, experiment).Some? && row in t && OfExperiment(experiment, row.value)
    ensures Cast(SecondField(row.value)).Some? && Cast(SecondField(row.value)).value <= MaxOfExperiment(t, experiment).value
  {
    hide Cast, SecondField, OfExperiment;
    var n := |t| - 1;
    if row in t[..n] {
      MaxOfExperimentBounds(t[..n], experiment, row);
    } else {
      assert row == t[n];
    }
  }

  lemma {:induction false} MaxNumericBounds(t: Table, row: Row)
    requires MaxNumeric(t).Some? && row in t && IsDigits(row.value)
    ensures Cast(row.value).Some? && Cast(row.value).value <= MaxNumeric(t).value
  {
    hide Cast, IsDigits;
    var n := |t| - 1;
    if row in t[..n] {
      MaxNumericBounds(t[..n], row);
    } else {
      assert row == t[n];
    }
  }

  lemma {:induction false} MaxAttained(t: Table, experiment: string)
    ensures MaxOfExperiment(t, experiment).Some? && MaxOfExperiment(t, experiment).value > 0 ==>
              exists row :: row in t && OfExperiment(experiment, row.value)
                            && Cast(SecondField(row.value)) == MaxOfExperiment(t, experiment)
    ensures MaxNumeric(t).Some? && MaxNumeric(t).value > 0 ==>
              exists row :: row in t && IsDigits(row.value) && Cast(row.value) == MaxNumeric(t)
  {
    hide Cast, SecondField, OfExperiment, IsDigits;
    if t != [] {
      var n := |t| - 1;
      MaxAttained(t[..n], experiment);
      assert t[n] in t;
      assert forall row | row in t[..n] :: row in t;
    }
  }

  /** The counter starts one above the largest number that is used by a recid of the experiment, is itself a
      registered recid, or was recorded by a release. */
  lemma StartIsAboveAll(t: Table, r: Release, others: nat)
    requires NextStart(t, r, others).Some?
    ensures var start := NextStart(t, r, others).value;
            && others < start && r.maxRecid < start
            && (forall row | row in t && OfExperiment(r.experiment, row.value) ::
                  Cast(SecondField(row.value)).Some? && Cast(SecondField(row.value)).value < start)
            && (forall row | row in t && IsDigits(row.value) :: Cast(row.value).Some? && Cast(row.value).value < start)
            && (start == 1 || start == others + 1 || start == r.maxRecid + 1
                || (exists row :: row in t && OfExperiment(r.experiment, row.value)
                                  && Cast(SecondField(row.value)) == Some((start - 1) as nat))
                || (exists row :: row in t && IsDigits(row.value) && Cast(row.value) == Some((start - 1) as nat)))
  {
    hide Cast, SecondField, OfExperiment, IsDigits, MaxOfExperiment, MaxNumeric;
    forall row | row in t && OfExperiment(r.experiment, row.value)
      ensures Cast(SecondField(row.value)).Some? && Cast(SecondField(row.value)).value < NextStart(t, r, others).value {
      MaxOfExperimentBounds(t, r.experiment, row);
    }
    forall row | row in t && IsDigits(row.value)
      ensures Cast(row.value).Some? && Cast(row.value).value < NextStart(t, r, others).value {
      MaxNumericBounds(t, row);
    }
    MaxAttained(t, r.experiment);
  }

  // ---------- A number at or above the start is free ----------

  lemma SecondFieldOfPrefixed(experiment: string, number: string)
    requires '-' !in experiment && IsDigits(number)
    ensures SecondField(WithPrefix(experiment, number)) == number
  {
    assert WithPrefix(experiment, number) == experiment + ['-'] + number;
    CutJoined(experiment, '-', number);
    assert '-' !in number;
  }

  lemma NumberOfPrefixed(experiment: string, number: string)
    requires IsDigits(number)
    ensures Number(experiment, WithPrefix(experiment, number)) == Some(number)
  {
    assert WithPrefix(experiment, number)[|experiment + "-"|..] == number;
  }

  /** A recid made from a number that is at least the start is unused, and its number is no recid. */
  lemma FreshNumber(t: Table, r: Release, others: nat, n: nat)
    requires '-' !in r.experiment && NextStart(t, r, others).Some? && n >= NextStart(t, r, others).value
    ensures forall b :: Row(WithPrefix(r.experiment, Render(n)), b) !in t && Row(Render(n), b) !in t
    ensures Good(t, r.experiment, Some(WithPrefix(r.experiment, Render(n))))
  {
    hide NextStart, Value, Render, SecondField;
    StartIsAboveAll(t, r, others);
    ValueOfRender(n);
    SecondFieldOfPrefixed(r.experiment, Render(n));
    NumberOfPrefixed(r.experiment, Render(n));
    assert OfExperiment(r.experiment, WithPrefix(r.experiment, Render(n)));
  }

  // ---------- One round ----------

  /** What one round does to one recid, whatever the counter: it is good, or it is a number that was prefixed. */
  ghost predicate Improved(t: Table, experiment: string, before: Option<string>, after: Option<string>) {
    Good(t, experiment, after)
    || (!IsRegistered(t, before) && IsDigits(TextOf(before)) && after == Some(WithPrefix(experiment, TextOf(before))))
  }

  lemma FixOneImproves(t: Table, r: Release, others: nat, recid: Option<string>, counter: nat)
    requires '-' !in r.experiment && NextStart(t, r, others).Some? && counter >= NextStart(t, r, others).value
    ensures Improved(t, r.experiment, recid, FixOne(t, r.experiment, recid, counter).0)
    ensures Good(t, r.experiment, recid) <==> FixOne(t, r.experiment, recid, counter) == (recid, false)
  {
    hide NextStart, Value, Render;
    FreshNumber(t, r, others, counter);
    if IsDigits(TextOf(recid)) {
      PrefixChanges(r.experiment, TextOf(recid));
    }
  }

  lemma PrefixChanges(experiment: string, number: string)
    ensures WithPrefix(experiment, number) != number
  {
    assert |WithPrefix(experiment, number)| > |number|;
  }

  lemma {:induction false} FixAllImproves(t: Table, r: Release, others: nat, recids: seq<Option<string>>, counter: nat)
    requires '-' !in r.experiment && NextStart(t, r, others).Some? && counter >= NextStart(t, r, others).value
    ensures var after := FixAll(t, r.experiment, recids, counter).0;
            forall i | 0 <= i < |recids| :: Improved(t, r.experiment, recids[i], after[i])
    ensures (forall i | 0 <= i < |recids| :: Good(t, r.experiment, recids[i])) <==>
              FixAll(t, r.experiment, recids, counter) == (recids, counter)
  {
    hide NextStart, Improved, FixOne, Good;
    if recids != [] {
      var n := |recids| - 1;
      FixAllImproves(t, r, others, recids[..n], counter);
      FixOneImproves(t, r, others, recids[n], FixAll(t, r.experiment, recids[..n], counter).1);
      assert recids == recids[..n] + [recids[n]];
    }
  }

  // ---------- Two rounds reach the fixpoint ----------

  ghost predicate AllGood(t: Table, r: Release) {
    forall i | 0 <= i < |r.recids| :: Good(t, r.experiment, r.recids[i])
  }

  /** The right format, and the number is not a registered recid; the recid itself may be registered. */
  predicate Halfway(t: Table, experiment: string, recid: Option<string>) {
    WellFormed(experiment, recid) && !Collides(t, experiment, recid)
  }

  lemma ImprovedIsHalfway(t: Table, experiment: string, before: Option<string>, after: Option<string>)
    requires Improved(t, experiment, before, after)
    ensures Halfway(t, experiment, after)
  {
    if IsDigits(TextOf(before)) {
      NumberOfPrefixed(experiment, TextOf(before));
    }
  }

  lemma {:induction false} FixAllFinishes(t: Table, r: Release, others: nat, recids: seq<Option<string>>, counter: nat)
    requires '-' !in r.experiment && NextStart(t, r, others).Some? && counter >= NextStart(t, r, others).value
    requires forall i | 0 <= i < |recids| :: Halfway(t, r.experiment, recids[i])
    ensures forall i | 0 <= i < |recids| :: Good(t, r.experiment, FixAll(t, r.experiment, recids, counter).0[i])
  {
    hide NextStart, Good, Halfway, FixOne;
    if recids != [] {
      var n := |recids| - 1;
      FixAllFinishes(t, r, others, recids[..n], counter);
      var (init, counter1) := FixAll(t, r.experiment, recids[..n], counter);
      FixOneFinishes(t, r, others, recids[n], counter1);
      var last := FixOne(t, r.experiment, recids[n], counter1).0;
      var after := FixAll(t, r.experiment, recids, counter).0;
      assert after == init + [last];
      forall i | 0 <= i < |recids| ensures Good(t, r.experiment, after[i]) {
        if i < n {
          assert Good(t, r.experiment, init[i]);
        }
      }
    }
  }

  lemma FixOneFinishes(t: Table, r: Release, others: nat, recid: Option<string>, counter: nat)
    requires '-' !in r.experiment && NextStart(t, r, others).Some? && counter >= NextStart(t, r, others).value
    requires Halfway(t, r.experiment, recid)
    ensures Good(t, r.experiment, FixOne(t, r.experiment, recid, counter).0)
  {
    hide NextStart, WellFormed, Collides, IsRegistered, Render;
    FreshNumber(t, r, others, counter);
  }

  /** The conversions only depend on the registry: if one round can be run, so can the next ones. */
  lemma StartAlways(t: Table, r: Release, others: nat, r': Release, others': nat)
    requires r'.experiment == r.experiment && NextStart(t, r, others).Some?
    ensures NextStart(t, r', others').Some?
  {
  }

  /** With an unchanged registry, after two rounds of the fix every recid has the right format, is unregistered and
      has no numeric collision; a further round changes nothing. Other releases may record numbers in between. */
  lemma TwoRoundsReachFixpoint(t: Table, r: Release, others: nat, others1: nat, others2: nat)
    requires '-' !in r.experiment && Fixed(t, r, others).Some?
    ensures var r1 := Fixed(t, r, others).value;
            && Fixed(t, r1, others1).Some?
            && var r2 := Fixed(t, r1, others1).value;
               AllGood(t, r2) && Fixed(t, r2, others2) == Some(r2)
  {
    hide FixAll, NextStart, Good, Halfway, Improved;
    var r1 := Fixed(t, r, others).value;
    FixAllImproves(t, r, others, r.recids, NextStart(t, r, others).value);
    forall i | 0 <= i < |r1.recids| ensures Halfway(t, r.experiment, r1.recids[i]) {
      ImprovedIsHalfway(t, r.experiment, r.recids[i], r1.recids[i]);
    }
    StartAlways(t, r, others, r1, others1);
    FixAllFinishes(t, r1, others1, r1.recids, NextStart(t, r1, others1).value);
    var r2 := Fixed(t, r1, others1).value;
    StartAlways(t, r, others, r2, others2);
    forall i | 0 <= i < |r2.recids| ensures Good(t, r2.experiment, r2.recids[i]) {
    }
    var start := NextStart(t, r2, others2).value;
    FixAllImproves(t, r2, others2, r2.recids, start);
    assert FixAll(t, r2.experiment, r2.recids, start) == (r2.recids, start);
  }

  /** One round is enough exactly if no unregistered plain number of the release is registered with the prefix. */
  lemma OneRoundEnough(t: Table, r: Release, others: nat)
    requires '-' !in r.experiment && Fixed(t, r, others).Some?
    ensures AllGood(t, Fixed(t, r, others).value) <==>
              forall i | 0 <= i < |r.recids| && !IsRegistered(t, r.recids[i]) && IsDigits(TextOf(r.recids[i])) ::
                Row(WithPrefix(r.experiment, TextOf(r.recids[i])), true) !in t
  {
    hide FixAll, NextStart, Good, Improved, IsRegistered, WithPrefix;
    var start := NextStart(t, r, others).value;
    FixAllImproves(t, r, others, r.recids, start);
    var after := FixAll(t, r.experiment, r.recids, start).0;
    forall i | 0 <= i < |r.recids|
      ensures Good(t, r.experiment, after[i]) <==>
                (!IsRegistered(t, r.recids[i]) && IsDigits(TextOf(r.recids[i])) ==>
                   Row(WithPrefix(r.experiment, TextOf(r.recids[i])), true) !in t) {
      FixAllNumbers(t, r.experiment, r.recids, start, i);
      GoodAfterOne(t, r.experiment, r.recids[i], after[i]);
    }
  }

  lemma GoodAfterOne(t: Table, experiment: string, before: Option<string>, after: Option<string>)
    requires '-' !in experiment && Improved(t, experiment, before, after)
    requires !IsRegistered(t, before) && IsDigits(TextOf(before)) ==> after == Some(WithPrefix(experiment, TextOf(before)))
    ensures Good(t, experiment, after) <==>
              (!IsRegistered(t, before) && IsDigits(TextOf(before)) ==> Row(WithPrefix(experiment, TextOf(before)), true) !in t)
  {
    if IsDigits(TextOf(before)) {
      NumberOfPrefixed(experiment, TextOf(before));
    }
  }

  // ---------- The numbers taken from the counter ----------

  /** The recid is replaced by a number from the counter. */
  predicate Counted(t: Table, experiment: string, recid: Option<string>) {
    !Good(t, experiment, recid) && !(!IsRegistered(t, recid) && IsDigits(TextOf(recid)))
  }

  function CountedIn(t: Table, experiment: string, recids: seq<Option<string>>): nat {
    if recids == [] then 0
    else CountedIn(t, experiment, recids[..|recids| - 1]) + if Counted(t, experiment, recids[|recids| - 1]) then 1 else 0
  }

  lemma PlainIsNotGood(t: Table, experiment: string, recid: Option<string>)
    requires IsDigits(TextOf(recid))
    ensures !Good(t, experiment, recid)
  {
    var d := TextOf(recid);
    assert forall k | 0 <= k < |d| :: d[k] != '-';
    assert (experiment + "-")[|experiment|] == '-';
  }

  lemma {:induction false} FixAllNumbers(t: Table, experiment: string, recids: seq<Option<string>>, counter: nat, i: nat)
    requires i < |recids|
    ensures var (after, counter') := FixAll(t, experiment, recids, counter);
            && counter' == counter + CountedIn(t, experiment, recids)
            && (!IsRegistered(t, recids[i]) && IsDigits(TextOf(recids[i])) ==>
                  after[i] == Some(WithPrefix(experiment, TextOf(recids[i]))))
            && (Counted(t, experiment, recids[i]) ==>
                  after[i] == Some(WithPrefix(experiment, Render(counter + CountedIn(t, experiment, recids[..i])))))
    ensures CountedIn(t, experiment, recids[..i]) + (if Counted(t, experiment, recids[i]) then 1 else 0)
         <= CountedIn(t, experiment, recids)
  {
    hide Good, IsRegistered, Render, WithPrefix;
    var n := |recids| - 1;
    var init := recids[..n];
    if init != [] {
      FixAllNumbers(t, experiment, init, counter, if i < n then i else 0);
    }
    if i < n {
      assert init[..i] == recids[..i];
    }
    if IsDigits(TextOf(recids[n])) {
      PlainIsNotGood(t, experiment, recids[n]);
    }
  }

  lemma {:induction false} CountedGrows(t: Table, experiment: string, recids: seq<Option<string>>, i: nat, j: nat)
    requires i < j <= |recids| && Counted(t, experiment, recids[i])
    ensures CountedIn(t, experiment, recids[..i]) < CountedIn(t, experiment, recids[..j])
    decreases j
  {
    assert recids[..j][..j - 1] == recids[..j - 1];
    if i < j - 1 {
      CountedGrows(t, experiment, recids, i, j - 1);
    }
  }

  /** The number that a round gives to a recid. */
  function Assigned(t: Table, r: Release, others: nat, i: nat): nat
    requires NextStart(t, r, others).Some? && i < |r.recids|
  {
    NextStart(t, r, others).value + CountedIn(t, r.experiment, r.recids[..i])
  }

  lemma AssignedDiffer(t: Table, r: Release, others: nat, i: nat, j: nat)
    requires NextStart(t, r, others).Some? && i < |r.recids| && j < |r.recids| && i != j
    requires Counted(t, r.experiment, r.recids[i]) && Counted(t, r.experiment, r.recids[j])
    ensures Assigned(t, r, others, i) != Assigned(t, r, others, j)
    ensures WithPrefix(r.experiment, Render(Assigned(t, r, others, i))) != WithPrefix(r.experiment, Render(Assigned(t, r, others, j)))
  {
    hide NextStart, Counted, Render, WithPrefix;
    if i < j {
      CountedGrows(t, r.experiment, r.recids, i, j);
    } else {
      CountedGrows(t, r.experiment, r.recids, j, i);
    }
    DifferentNumbers(r.experiment, Assigned(t, r, others, i), Assigned(t, r, others, j));
  }

  lemma AssignedInResult(t: Table, r: Release, others: nat, i: nat)
    requires Fixed(t, r, others).Some? && i < |r.recids| && Counted(t, r.experiment, r.recids[i])
    ensures var r1, n := Fixed(t, r, others).value, Assigned(t, r, others, i);
            r1.recids[i] == Some(WithPrefix(r.experiment, Render(n)))
            && NextStart(t, r, others).value <= n <= r1.maxRecid
  {
    hide NextStart, Counted, Render, WithPrefix;
    FixAllNumbers(t, r.experiment, r.recids, NextStart(t, r, others).value, i);
  }

  /** The numbers that a round takes from the counter are pairwise distinct, recorded by the release, unused, and
      above every number that is used by a recid of the experiment, is a recid, or was recorded by a release. */
  lemma AssignedNumbers(t: Table, r: Release, others: nat, i: nat)
    requires '-' !in r.experiment && Fixed(t, r, others).Some? && i < |r.recids| && Counted(t, r.experiment, r.recids[i])
    ensures var r1, n := Fixed(t, r, others).value, Assigned(t, r, others, i);
            && r1.recids[i] == Some(WithPrefix(r.experiment, Render(n)))
            && others < n && r.maxRecid < n <= r1.maxRecid
            && (forall row | row in t && OfExperiment(r.experiment, row.value) ::
                  Cast(SecondField(row.value)).Some? && Cast(SecondField(row.value)).value < n)
            && (forall row | row in t && IsDigits(row.value) :: Cast(row.value).Some? && Cast(row.value).value < n)
            && (forall b :: Row(WithPrefix(r.experiment, Render(n)), b) !in t)
            && (forall j | 0 <= j < |r.recids| && j != i && Counted(t, r.experiment, r.recids[j]) ::
                  r1.recids[j] != r1.recids[i])
  {
    hide NextStart, Counted, WithPrefix, Render, OfExperiment, SecondField, Cast, Assigned, FixAll, IsDigits, Good;
    StartIsAboveAll(t, r, others);
    AssignedInResult(t, r, others, i);
    FreshNumber(t, r, others, Assigned(t, r, others, i));
    var r1 := Fixed(t, r, others).value;
    forall j | 0 <= j < |r.recids| && j != i && Counted(t, r.experiment, r.recids[j]) ensures r1.recids[j] != r1.recids[i] {
      AssignedInResult(t, r, others, j);
      AssignedDiffer(t, r, others, i, j);
    }
  }

  lemma DifferentNumbers(experiment: string, m: nat, n: nat)
    requires m != n
    ensures WithPrefix(experiment, Render(m)) != WithPrefix(experiment, Render(n))
  {
    NumberOfPrefixed(experiment, Render(m));
    NumberOfPrefixed(experiment, Render(n));
    if Render(m) == Render(n) {
      RenderInjective(m, n);
    }
  }

  /** What becomes of a recid that takes no number from the counter. */
  function Uncounted(t: Table, experiment: string, recid: Option<string>): Option<string> {
    if Good(t, experiment, recid) then recid else Some(WithPrefix(experiment, TextOf(recid)))
  }

  lemma UncountedInResult(t: Table, r: Release, others: nat, j: nat)
    requires Fixed(t, r, others).Some? && j < |r.recids| && !Counted(t, r.experiment, r.recids[j])
    ensures Fixed(t, r, others).value.recids[j] == Uncounted(t, r.experiment, r.recids[j])
  {
    hide NextStart, Good, IsRegistered, WithPrefix;
    FixAllUncounted(t, r.experiment, r.recids, NextStart(t, r, others).value, j);
  }

  lemma {:induction false} FixAllUncounted(t: Table, experiment: string, recids: seq<Option<string>>, counter: nat, j: nat)
    requires j < |recids| && !Counted(t, experiment, recids[j])
    ensures FixAll(t, experiment, recids, counter).0[j] == Uncounted(t, experiment, recids[j])
  {
    hide Good, IsRegistered, WithPrefix, Render;
    var n := |recids| - 1;
    if j < n {
      FixAllUncounted(t, experiment, recids[..n], counter, j);
    }
  }

  /** Every number from the start up to the end of the counter is assigned to some entry. */
  lemma {:induction false} EveryNumberAssigned(t: Table, experiment: string, recids: seq<Option<string>>, m: nat) returns (i: nat)
    requires m < CountedIn(t, experiment, recids)
    ensures i < |recids| && Counted(t, experiment, recids[i]) && CountedIn(t, experiment, recids[..i]) == m
  {
    hide Counted;
    var n := |recids| - 1;
    if m < CountedIn(t, experiment, recids[..n]) {
      i := EveryNumberAssigned(t, experiment, recids[..n], m);
      assert recids[..n][..i] == recids[..i];
    } else {
      i := n;
    }
  }

  /** An entry takes no number from the counter, but ends as the m-th number of the counter. */
  ghost predicate Meets(t: Table, r: Release, others: nat, j: nat, m: nat)
    requires NextStart(t, r, others).Some?
  {
    && j < |r.recids| && m < CountedIn(t, r.experiment, r.recids) && !Counted(t, r.experiment, r.recids[j])
    && Uncounted(t, r.experiment, r.recids[j]) == Some(WithPrefix(r.experiment, Render(NextStart(t, r, others).value + m)))
  }

  ghost predicate CounterMeets(t: Table, r: Release, others: nat)
    requires NextStart(t, r, others).Some?
  {
    exists j: nat, m: nat :: Meets(t, r, others, j, m)
  }

  ghost predicate AssignedTwice(t: Table, r: Release, others: nat)
    requires Fixed(t, r, others).Some?
  {
    var after := Fixed(t, r, others).value.recids;
    exists i, j ::
      && 0 <= i < |r.recids| && 0 <= j < |r.recids| && i != j
      && Counted(t, r.experiment, r.recids[i]) && after[i] == after[j]
  }

  /** A number from the counter repeats another recid exactly if a recid of the release that is kept, or only gets its
      prefix, already is one of the numbers that the counter runs through. */
  lemma CounterRepeatsExactly(t: Table, r: Release, others: nat)
    requires '-' !in r.experiment && Fixed(t, r, others).Some?
    ensures AssignedTwice(t, r, others) <==> CounterMeets(t, r, others)
  {
    hide NextStart, Counted, WithPrefix, Render, Assigned, FixAll, Good, Uncounted;
    var after := Fixed(t, r, others).value.recids;
    if AssignedTwice(t, r, others) {
      var i, j :| 0 <= i < |r.recids| && 0 <= j < |r.recids| && i != j
                  && Counted(t, r.experiment, r.recids[i]) && after[i] == after[j];
      AssignedNumbers(t, r, others, i);
      AssignedIs(t, r, others, i);
      UncountedInResult(t, r, others, j);
      assert Meets(t, r, others, j, CountedIn(t, r.experiment, r.recids[..i]));
    }
    if CounterMeets(t, r, others) {
      var j: nat, m: nat :| Meets(t, r, others, j, m);
      var i := EveryNumberAssigned(t, r.experiment, r.recids, m);
      AssignedInResult(t, r, others, i);
      AssignedIs(t, r, others, i);
      UncountedInResult(t, r, others, j);
      assert after[i] == after[j];
    }
  }

  lemma AssignedIs(t: Table, r: Release, others: nat, i: nat)
    requires NextStart(t, r, others).Some? && i < |r.recids|
    ensures Assigned(t, r, others, i) == NextStart(t, r, others).value + CountedIn(t, r.experiment, r.recids[..i])
    ensures Counted(t, r.experiment, r.recids[i]) ==>
              CountedIn(t, r.experiment, r.recids[..i]) < CountedIn(t, r.experiment, r.recids)
  {
    hide NextStart, Counted;
    if Counted(t, r.experiment, r.recids[i]) {
      CountedGrows(t, r.experiment, r.recids, i, |r.recids|);
      assert r.recids[..|r.recids|] == r.recids;
    }
  }

  /** The counter does not look at the recids of the release itself: a number it assigns can repeat one of them,
      and no further round repairs that. */
  lemma FixCanDuplicate()
    ensures var r := Release("cms", [Some("cms-1"), None], 0, false);
            var after := Release("cms", [Some("cms-1"), Some("cms-1")], 1, false);
            Fixed([], r, 0) == Some(after) && Fixed([], after, 0) == Some(after)
  {
    var one := Some("cms-1");
    assert "cms-1"[|"cms" + "-"|..] == "1";
    assert Good([], "cms", one);
    assert Render(1) == "1" && WithPrefix("cms", "1") == "cms-1";
    assert FixOne([], "cms", None, 1) == (one, true);
    FixTwo([], "cms", one, None, 1);
    FixTwo([], "cms", one, one, 2);
  }

  lemma FixTwo(t: Table, experiment: string, a: Option<string>, b: Option<string>, counter: nat)
    requires Good(t, experiment, a)
    ensures var (last, counted) := FixOne(t, experiment, b, counter);
            FixAll(t, experiment, [a, b], counter) == ([a, last], if counted then counter + 1 else counter)
  {
    var none: seq<Option<string>> := [];
    assert [a, b][..1] == [a] && [a][..0] == none && none + [a] == [a] && [a] + [b] == [a, b];
    assert forall x: Option<string> :: [a] + [x] == [a, x];
    assert FixAll(t, experiment, none, counter) == (none, counter);
    assert FixAll(t, experiment, [a], counter) == ([a], counter);
  }
}
