/** The validation report and the fix of recids, entry by entry, in terms of the strings alone. */
module RecidReport {
  import opened Options
  import opened Decimal
  import opened Recid
  import opened Text
  import opened RecidValidation

  /** Decimal digits only, and at least one. */
  ghost predicate Digits(text: string) {
    text != "" && forall c | c in text :: c in {'0', '1', '2', '3', '4', '5', '6', '7', '8', '9'}
  }

  /** The experiment, a dash, and the number. */
  ghost predicate Numbered(experiment: string, recid: Option<string>, number: string) {
    Digits(number) && recid == Some(experiment + "-" + number)
  }

  ghost predicate Missing(recid: Option<string>) {
    recid == None || recid == Some("")
  }

  /** The recid is registered as it stands. */
  ghost predicate Taken(t: Table, recid: Option<string>) {
    !Missing(recid) && Row(recid.value, true) in t
  }

  lemma DigitsExact(text: string)
    ensures IsDigits(text) <==> Digits(text)
  {
    forall c: char ensures IsDigit(c) <==> c in {'0', '1', '2', '3', '4', '5', '6', '7', '8', '9'} {
    }
    hide IsDigit;
    assert forall i | 0 <= i < |text| :: text[i] in text;
  }

  lemma NumberedExact(experiment: string, recid: Option<string>, number: string)
    ensures Numbered(experiment, recid, number) <==> Number(experiment, TextOf(recid)) == Some(number)
  {
    DigitsExact(number);
    hide IsDigits, Digits;
    if IsDigits(number) && recid == Some(experiment + "-" + number) {
      NumberOfPrefixed(experiment, number);
    }
  }

  lemma WellFormedExact(experiment: string, recid: Option<string>)
    ensures WellFormed(experiment, recid) <==> exists number :: Numbered(experiment, recid, number)
  {
    hide Numbered, Number, TextOf;
    if WellFormed(experiment, recid) {
      NumberedExact(experiment, recid, Number(experiment, TextOf(recid)).value);
    }
    if number :| Numbered(experiment, recid, number) {
      NumberedExact(experiment, recid, number);
    }
  }

  lemma CollidesExact(t: Table, experiment: string, recid: Option<string>)
    ensures Collides(t, experiment, recid) <==> exists number :: Numbered(experiment, recid, number) && Row(number, true) in t
  {
    hide Numbered, Number, TextOf;
    if Collides(t, experiment, recid) {
      NumberedExact(experiment, recid, Number(experiment, TextOf(recid)).value);
    }
    if number :| Numbered(experiment, recid, number) && Row(number, true) in t {
      NumberedExact(experiment, recid, number);
    }
  }

  lemma TakenExact(t: Table, recid: Option<string>)
    ensures IsRegistered(t, recid) <==> Taken(t, recid)
  {
  }

  // ---------- The report ----------

  lemma {:induction false} EntryErrorsAt(recids: seq<Option<string>>, e: EntryError)
    ensures e in EntryErrors(recids) <==> 1 <= e.entry <= |recids| && e in ErrorsAt(recids[..e.entry - 1], recids[e.entry - 1])
  {
    hide TextOf, FirstIndex;
    if recids != [] {
      var n := |recids| - 1;
      EntryErrorsAt(recids[..n], e);
      if 1 <= e.entry <= n {
        assert recids[..n][..e.entry - 1] == recids[..e.entry - 1];
      }
    }
  }

  lemma {:induction false} FormatErrorsAt(experiment: string, recids: seq<Option<string>>, e: EntryError)
    ensures e in FormatErrors(experiment, recids) <==>
              && 1 <= e.entry <= |recids| && e == WrongFormat(e.entry, TextOf(recids[e.entry - 1]))
              && TextOf(recids[e.entry - 1]) != "" && !WellFormed(experiment, recids[e.entry - 1])
  {
    hide TextOf, WellFormed;
    if recids != [] {
      FormatErrorsAt(experiment, recids[..|recids| - 1], e);
    }
  }

  /** What an error among the entries says. */
  ghost predicate EntryJustified(recids: seq<Option<string>>, e: EntryError) {
    && 1 <= e.entry <= |recids|
    && match e
       case MissingRecid(n) => Missing(recids[n - 1])
       case DuplicateRecid(n, recid, first) =>
         && recid != "" && recids[n - 1] == Some(recid)
         && 1 <= first < n && recids[first - 1] == Some(recid) && forall k | 0 <= k < first - 1 :: recids[k] != Some(recid)
       case WrongFormat(_, _) => false
       case CollidesWith(_, _, _) => false
  }

  ghost predicate FormatJustified(experiment: string, recids: seq<Option<string>>, e: EntryError) {
    && 1 <= e.entry <= |recids| && e.WrongFormat?
    && e.recid != "" && recids[e.entry - 1] == Some(e.recid) && forall number :: !Numbered(experiment, Some(e.recid), number)
  }

  /** The last entry with a number that is registered by itself. */
  ghost predicate CollisionJustified(t: Table, experiment: string, recids: seq<Option<string>>, e: EntryError) {
    && 1 <= e.entry <= |recids| && e.CollidesWith?
    && recids[e.entry - 1] == Some(e.recid) && Numbered(experiment, Some(e.recid), e.existing) && Row(e.existing, true) in t
    && forall k | e.entry <= k < |recids| :: recids[k] != Some(e.recid)
  }

  lemma FirstExact(before: seq<Option<string>>, recid: string, k: int)
    ensures Some(recid) in before && FirstIndex(before, recid) == k <==>
              0 <= k < |before| && before[k] == Some(recid) && forall j | 0 <= j < k :: before[j] != Some(recid)
  {
  }

  /** The error of one entry, given the entries before it. */
  lemma ErrorsAtExact(before: seq<Option<string>>, next: Option<string>, e: EntryError)
    ensures e in ErrorsAt(before, next) <==>
              && e.entry == |before| + 1
              && if Missing(next) then e.MissingRecid?
                 else e.DuplicateRecid? && e.recid == next.value && next in before && e.first == FirstIndex(before, next.value) + 1
  {
    hide FirstIndex;
  }

  lemma EntryAt(recids: seq<Option<string>>, e: EntryError)
    requires 1 <= e.entry <= |recids|
    ensures e in ErrorsAt(recids[..e.entry - 1], recids[e.entry - 1]) <==> EntryJustified(recids, e)
  {
    var before, next := recids[..e.entry - 1], recids[e.entry - 1];
    ErrorsAtExact(before, next, e);
    hide ErrorsAt, FirstIndex;
    if e.DuplicateRecid? && !Missing(next) {
      FirstExact(before, next.value, e.first - 1);
      assert forall k | 0 <= k < e.entry - 1 :: before[k] == recids[k];
    }
  }

  lemma EntriesExactly(recids: seq<Option<string>>, e: EntryError)
    ensures e in EntryErrors(recids) <==> EntryJustified(recids, e)
  {
    hide EntryErrors, ErrorsAt;
    EntryErrorsAt(recids, e);
    assert EntryJustified(recids, e) ==> 1 <= e.entry <= |recids|;
    hide EntryJustified;
    if 1 <= e.entry <= |recids| {
      EntryAt(recids, e);
    }
  }

  lemma FormatExactly(experiment: string, recids: seq<Option<string>>, e: EntryError)
    ensures e in FormatErrors(experiment, recids) <==> FormatJustified(experiment, recids, e)
  {
    FormatErrorsAt(experiment, recids, e);
    if 1 <= e.entry <= |recids| {
      WellFormedExact(experiment, recids[e.entry - 1]);
      hide FormatErrors, Numbered, WellFormed;
    }
  }

  lemma SameNumber(experiment: string, a: Option<string>, b: Option<string>)
    requires Number(experiment, TextOf(a)).Some?
    ensures Number(experiment, TextOf(b)) == Number(experiment, TextOf(a)) <==> a == b
  {
    var number := Number(experiment, TextOf(a)).value;
    NumberedExact(experiment, a, number);
    NumberedExact(experiment, b, number);
  }

  lemma CollisionsExactly(t: Table, experiment: string, recids: seq<Option<string>>, e: EntryError)
    ensures e in Collisions(t, experiment, recids) <==> CollisionJustified(t, experiment, recids, e)
  {
    if e in Collisions(t, experiment, recids) {
      var i :| 0 <= i < |recids| && Collides(t, experiment, recids[i]) && LastWithNumber(experiment, recids, i)
               && e == CollisionAt(experiment, recids, i);
      NumberedExact(experiment, recids[i], e.existing);
      forall k | i < k < |recids| ensures recids[k] != recids[i] {
        SameNumber(experiment, recids[i], recids[k]);
      }
    }
    if CollisionJustified(t, experiment, recids, e) {
      var i := e.entry - 1;
      NumberedExact(experiment, recids[i], e.existing);
      forall k | i < k < |recids| ensures Number(experiment, TextOf(recids[k])) != Some(e.existing) {
        SameNumber(experiment, recids[i], recids[k]);
      }
      CollisionMember(t, experiment, recids, i);
    }
  }

  /** The report, exactly: each list holds the justified errors, and the registered recids are those of the release,
      unless it is staged. */
  lemma ReportExactly(t: Table, r: Release, e: EntryError, recid: string)
    ensures var report := Validated(t, r);
            && (e in report.entries <==> EntryJustified(r.recids, e))
            && (e in report.format <==> FormatJustified(r.experiment, r.recids, e))
            && (e in report.collisions <==> CollisionJustified(t, r.experiment, r.recids, e))
            && (recid in report.registered <==> !r.staged && recid != "" && Some(recid) in r.recids && Row(recid, true) in t)
  {
    hide EntryErrors, FormatErrors, Collisions, EntryJustified, FormatJustified, CollisionJustified;
    EntriesExactly(r.recids, e);
    FormatExactly(r.experiment, r.recids, e);
    CollisionsExactly(t, r.experiment, r.recids, e);
    if recid != "" && Some(recid) in r.recids && Row(recid, true) in t {
      var i :| 0 <= i < |r.recids| && r.recids[i] == Some(recid);
      assert IsRegistered(t, r.recids[i]) && TextOf(r.recids[i]) == recid;
    }
  }

  // ---------- Where the counter starts ----------

  /** What stands between the first dash of the text and the next one, or its end. */
  ghost predicate IsSecond(value: string, field: string) {
    exists first, rest :: Between(value, first, field, rest)
  }

  ghost predicate Between(value: string, first: string, field: string, rest: string) {
    '-' !in first && '-' !in field && value == first + "-" + field + rest && (rest == "" || rest[0] == '-')
  }

  lemma SecondIs(value: string)
    requires '-' in value
    ensures IsSecond(value, SecondField(value))
  {
    hide Cut, Before;
    var (first, tail) := Cut(value, '-').value;
    var second := Before(tail, '-');
    assert tail == second + tail[|second|..];
    assert Between(value, first, second, tail[|second|..]);
  }

  lemma SecondOf(first: string, field: string, rest: string)
    requires '-' !in first && '-' !in field && (rest == "" || rest[0] == '-')
    ensures SecondField(first + "-" + field + rest) == field
  {
    hide Cut, Before;
    assert first + "-" + field + rest == first + ['-'] + (field + rest);
    CutJoined(first, '-', field + rest);
    BeforeJoined(field, rest);
  }

  lemma SecondExact(value: string, field: string)
    requires '-' in value
    ensures SecondField(value) == field <==> IsSecond(value, field)
  {
    SecondIs(value);
    hide SecondField;
    if IsSecond(value, field) {
      var first, rest :| Between(value, first, field, rest);
      SecondOf(first, field, rest);
    }
  }

  lemma BeforeJoined(field: string, rest: string)
    requires '-' !in field && (rest == "" || rest[0] == '-')
    ensures Before(field + rest, '-') == field
  {
    if rest == "" {
      assert field + rest == field;
    } else {
      assert field + rest == field + ['-'] + rest[1..];
      CutJoined(field, '-', rest[1..]);
    }
  }

  /** The texts of the registry that are read as numbers: what follows the experiment, and the recids of digits only. */
  ghost predicate ReadAsNumber(t: Table, experiment: string, text: string) {
    || (exists row :: row in t && experiment + "-" <= row.value && IsSecond(row.value, text))
    || (Digits(text) && exists row :: row in t && row.value == text)
  }

  /** Digits only, and no more than a 32-bit integer holds. */
  ghost predicate Fits(text: string) {
    IsDigits(text) && Value(text) <= 2147483647
  }

  lemma CastExact(text: string)
    ensures Cast(text) == if Fits(text) then Some(Value(text)) else None
  {
  }

  lemma HasDash(experiment: string, value: string)
    requires experiment + "-" <= value
    ensures '-' in value
  {
    assert value[|experiment|] == '-';
  }

  lemma {:induction false} MaximaFail(t: Table, experiment: string)
    ensures MaxOfExperiment(t, experiment).None? <==>
              exists row :: row in t && OfExperiment(experiment, row.value) && Cast(SecondField(row.value)).None?
    ensures MaxNumeric(t).None? <==> exists row :: row in t && IsDigits(row.value) && Cast(row.value).None?
  {
    hide Cast, SecondField, OfExperiment, IsDigits;
    if t != [] {
      var n := |t| - 1;
      MaximaFail(t[..n], experiment);
      assert forall row :: row in t <==> row in t[..n] || row == t[n];
    }
  }

  lemma ReadRow(t: Table, experiment: string, row: Row)
    requires row in t
    ensures experiment + "-" <= row.value ==> ReadAsNumber(t, experiment, SecondField(row.value))
    ensures IsDigits(row.value) ==> ReadAsNumber(t, experiment, row.value)
  {
    DigitsExact(row.value);
    if experiment + "-" <= row.value {
      HasDash(experiment, row.value);
      SecondExact(row.value, SecondField(row.value));
    }
  }

  lemma RowRead(t: Table, experiment: string, text: string) returns (row: Row)
    requires ReadAsNumber(t, experiment, text)
    ensures row in t
    ensures (experiment + "-" <= row.value && text == SecondField(row.value)) || (IsDigits(row.value) && text == row.value)
  {
    DigitsExact(text);
    if x :| x in t && experiment + "-" <= x.value && IsSecond(x.value, text) {
      HasDash(experiment, x.value);
      SecondExact(x.value, text);
      row := x;
    } else {
      row :| row in t && row.value == text;
    }
  }

  /** The round can be run exactly if every text that is read as a number fits into 32 bits; the counter then starts one
      above all of them and all the numbers recorded by releases, and no higher. */
  lemma StartExactly(t: Table, r: Release, others: nat)
    ensures Fixed(t, r, others).Some? <==> forall text | ReadAsNumber(t, r.experiment, text) :: Fits(text)
    ensures NextStart(t, r, others).Some? ==>
              var start := NextStart(t, r, others).value;
              && (forall text | ReadAsNumber(t, r.experiment, text) :: Fits(text) && Value(text) < start)
              && others < start && r.maxRecid < start
              && (start == 1 || start == others + 1 || start == r.maxRecid + 1
                  || exists text :: ReadAsNumber(t, r.experiment, text) && Fits(text) && Value(text) == start - 1)
  {
    hide FixAll, Cast, SecondField, ReadAsNumber, MaxOfExperiment, MaxNumeric, Value;
    MaximaFail(t, r.experiment);
    forall text | ReadAsNumber(t, r.experiment, text)
      ensures NextStart(t, r, others).Some? ==> Fits(text) && Value(text) < NextStart(t, r, others).value {
      var row := RowRead(t, r.experiment, text);
      CastExact(text);
      if NextStart(t, r, others).Some? { StartIsAboveAll(t, r, others); }
    }
    if NextStart(t, r, others).None? {
      var row := FailingRow(t, r.experiment);
      ReadRow(t, r.experiment, row);
      CastExact(SecondField(row.value));
      CastExact(row.value);
    } else {
      StartIsAboveAll(t, r, others);
      Attained(t, r, others);
    }
  }

  lemma FailingRow(t: Table, experiment: string) returns (row: Row)
    requires MaxOfExperiment(t, experiment).None? || MaxNumeric(t).None?
    ensures row in t
    ensures (experiment + "-" <= row.value && Cast(SecondField(row.value)).None?) || (IsDigits(row.value) && Cast(row.value).None?)
  {
    MaximaFail(t, experiment);
    row :| row in t && ((experiment + "-" <= row.value && Cast(SecondField(row.value)).None?)
                        || (IsDigits(row.value) && Cast(row.value).None?));
  }

  lemma Attained(t: Table, r: Release, others: nat)
    requires NextStart(t, r, others).Some?
    ensures var start := NextStart(t, r, others).value;
            start == 1 || start == others + 1 || start == r.maxRecid + 1
            || exists text :: ReadAsNumber(t, r.experiment, text) && Fits(text) && Value(text) == start - 1
  {
    hide Cast, SecondField, IsDigits, ReadAsNumber, NextStart, Value, Fits;
    StartIsAboveAll(t, r, others);
    var start := NextStart(t, r, others).value;
    if row :| row in t && OfExperiment(r.experiment, row.value) && Cast(SecondField(row.value)) == Some((start - 1) as nat) {
      ReadRow(t, r.experiment, row);
      CastExact(SecondField(row.value));
    } else if row :| row in t && IsDigits(row.value) && Cast(row.value) == Some((start - 1) as nat) {
      ReadRow(t, r.experiment, row);
      CastExact(row.value);
    }
  }

  // ---------- The fix ----------

  /** Nothing is wrong with the recid. */
  ghost predicate Kept(t: Table, experiment: string, recid: Option<string>) {
    !Taken(t, recid) && exists number :: Numbered(experiment, recid, number) && Row(number, true) !in t
  }

  /** A plain number that is not registered. */
  ghost predicate Plain(t: Table, recid: Option<string>) {
    !Taken(t, recid) && recid.Some? && Digits(recid.value)
  }

  /** The entries that take a number from the counter. */
  ghost function Renumbered(t: Table, r: Release, n: nat): set<nat>
    requires n <= |r.recids|
  {
    set i: nat | i < n && !Kept(t, r.experiment, r.recids[i]) && !Plain(t, r.recids[i])
  }

  lemma GoodExact(t: Table, experiment: string, recid: Option<string>)
    ensures Good(t, experiment, recid) <==> Kept(t, experiment, recid)
  {
    hide Numbered, Number, TextOf;
    TakenExact(t, recid);
    if Number(experiment, TextOf(recid)).Some? {
      NumberedExact(experiment, recid, Number(experiment, TextOf(recid)).value);
    }
    if number :| Numbered(experiment, recid, number) && Row(number, true) !in t {
      NumberedExact(experiment, recid, number);
    }
  }

  lemma PlainExact(t: Table, recid: Option<string>)
    ensures Plain(t, recid) <==> !IsRegistered(t, recid) && IsDigits(TextOf(recid))
  {
    TakenExact(t, recid);
    DigitsExact(TextOf(recid));
    assert !Digits("");
    hide Taken, IsRegistered, Digits, IsDigits;
  }

  lemma CountedExact(t: Table, experiment: string, recid: Option<string>)
    ensures Counted(t, experiment, recid) <==> !Kept(t, experiment, recid) && !Plain(t, recid)
  {
    GoodExact(t, experiment, recid);
    PlainExact(t, recid);
    hide Good, Kept, Plain, IsRegistered, IsDigits;
  }

  lemma {:induction false} CountedAreRenumbered(t: Table, r: Release, n: nat)
    requires n <= |r.recids|
    ensures CountedIn(t, r.experiment, r.recids[..n]) == |Renumbered(t, r, n)|
  {
    hide Counted, Kept, Plain;
    if n > 0 {
      CountedAreRenumbered(t, r, n - 1);
      CountedExact(t, r.experiment, r.recids[n - 1]);
      assert r.recids[..n][..n - 1] == r.recids[..n - 1];
      if Counted(t, r.experiment, r.recids[n - 1]) {
        assert Renumbered(t, r, n) == Renumbered(t, r, n - 1) + {n - 1};
      } else {
        assert Renumbered(t, r, n) == Renumbered(t, r, n - 1);
      }
    }
  }

  /** No zero in front. */
  lemma {:induction false} RenderIsPlain(n: nat)
    ensures Render(n)[0] == '0' ==> n == 0
    ensures n < 10 ==> |Render(n)| == 1
  {
    if n >= 10 {
      RenderIsPlain(n / 10);
    }
  }

  /** The decimal numeral. */
  ghost predicate IsNumeral(text: string, n: nat) {
    IsDigits(text) && Value(text) == n && (text[0] == '0' ==> text == "0")
  }

  lemma RenderIsNumeral(n: nat)
    ensures IsNumeral(Render(n), n)
  {
    ValueOfRender(n);
    RenderIsPlain(n);
  }

  /** One round, entry by entry: a recid that is fine is kept, an unregistered plain number gets its prefix, and every other
      entry gets the next number of the counter; the last number given is recorded. */
  lemma FixExactly(t: Table, r: Release, others: nat, i: nat)
    requires Fixed(t, r, others).Some? && i < |r.recids|
    ensures var r1, start := Fixed(t, r, others).value, NextStart(t, r, others).value;
            && r1.experiment == r.experiment && r1.staged == r.staged && |r1.recids| == |r.recids|
            && (Kept(t, r.experiment, r.recids[i]) ==> r1.recids[i] == r.recids[i])
            && (Plain(t, r.recids[i]) ==> r1.recids[i] == Some(r.experiment + "-" + r.recids[i].value))
            && (!Kept(t, r.experiment, r.recids[i]) && !Plain(t, r.recids[i]) ==>
                  exists number :: IsNumeral(number, start + |Renumbered(t, r, i)|)
                                   && r1.recids[i] == Some(r.experiment + "-" + number))
            && var last := |Renumbered(t, r, |r.recids|)|;
               r1.maxRecid == if last > 0 then start + last - 1 else r.maxRecid
  {
    hide NextStart, Counted, Good, Kept, Render, IsNumeral, FixAll, Renumbered;
    var start := NextStart(t, r, others).value;
    FixAllNumbers(t, r.experiment, r.recids, start, i);
    CountedAreRenumbered(t, r, i);
    CountedAreRenumbered(t, r, |r.recids|);
    assert r.recids[..|r.recids|] == r.recids;
    CountedExact(t, r.experiment, r.recids[i]);
    GoodExact(t, r.experiment, r.recids[i]);
    RenderIsNumeral(start + |Renumbered(t, r, i)|);
    if Good(t, r.experiment, r.recids[i]) {
      GoodIsNotCounted(t, r.experiment, r.recids[i]);
      UncountedInResult(t, r, others, i);
    }
    PlainExact(t, r.recids[i]);
  }

  lemma GoodIsNotCounted(t: Table, experiment: string, recid: Option<string>)
    requires Good(t, experiment, recid)
    ensures !Counted(t, experiment, recid)
  {
  }
}
