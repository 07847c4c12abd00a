/** The validation report and the fix of DOIs, entry by entry, in terms of the strings alone. */
module DoiReport {
  import opened Options
  import opened Text
  import opened Doi

  /** The entry has a DOI with that prefix and that nonempty suffix, cut at its first slash. */
  ghost predicate Parts(doi: Option<string>, prefix: string, suffix: string) {
    suffix != "" && '/' !in prefix && doi == Some(prefix + "/" + suffix)
  }

  ghost predicate Uses(doi: Option<string>, suffix: string) {
    exists prefix :: Parts(doi, prefix, suffix)
  }

  lemma PartsExact(doi: Option<string>, prefix: string, suffix: string)
    ensures Parts(doi, prefix, suffix) <==> HasSuffix(doi) && Partition(doi.value) == (prefix, suffix)
  {
    if Parts(doi, prefix, suffix) {
      PartitionJoined(prefix, suffix);
    }
  }

  lemma UsesExact(doi: Option<string>, suffix: string)
    ensures Uses(doi, suffix) <==> UsesSuffix(doi, suffix)
  {
    if prefix :| Parts(doi, prefix, suffix) {
      PartsExact(doi, prefix, suffix);
    }
    if UsesSuffix(doi, suffix) {
      PartsExact(doi, Partition(doi.value).0, suffix);
    }
  }

  lemma SuffixesExact(dois: seq<Option<string>>, suffix: string)
    ensures suffix in SuffixesOf(dois) <==> exists i :: 0 <= i < |dois| && Uses(dois[i], suffix)
  {
    forall i | 0 <= i < |dois| ensures Uses(dois[i], suffix) <==> UsesSuffix(dois[i], suffix) {
      UsesExact(dois[i], suffix);
    }
    hide Uses, Suffix;
  }

  /** The first entry that uses the suffix. */
  lemma {:induction false} FirstExact(dois: seq<Option<string>>, suffix: string)
    ensures var n := FirstWith(dois, suffix);
            n <= |dois| && (forall j | 0 <= j < n :: !Uses(dois[j], suffix)) && (n < |dois| ==> Uses(dois[n], suffix))
  {
    hide Uses, UsesSuffix;
    if dois != [] {
      UsesExact(dois[0], suffix);
      FirstExact(dois[1..], suffix);
      assert forall j | 1 <= j < |dois| :: dois[j] == dois[1..][j - 1];
    }
  }

  lemma {:induction false} ErrorsOfExact(c: Config, dois: seq<Option<string>>, e: DoiError)
    ensures e in ErrorsOf(c, dois) <==> 1 <= e.entry <= |dois| && e in ErrorsAt(c, dois[..e.entry - 1], dois[e.entry - 1])
  {
    hide ErrorsAt;
    if dois != [] {
      var n := |dois| - 1;
      ErrorsOfExact(c, dois[..n], e);
      EntryNumber(c, dois[..n], dois[n], e);
      if 1 <= e.entry <= n {
        assert dois[..n][..e.entry - 1] == dois[..e.entry - 1];
      }
    }
  }

  lemma EntryNumber(c: Config, before: seq<Option<string>>, doi: Option<string>, e: DoiError)
    ensures e in ErrorsAt(c, before, doi) ==> e.entry == |before| + 1
  {
    hide SuffixesOf, FirstWith, Partition;
  }

  /** What each error says. */
  ghost predicate Justified(c: Config, dois: seq<Option<string>>, e: DoiError) {
    && 1 <= e.entry <= |dois|
    && var doi := dois[e.entry - 1];
       match e
       case MalformedDoi(_, text) => text != "" && doi == Some(text) && forall prefix, suffix :: !Parts(doi, prefix, suffix)
       case WrongPrefix(_, prefix) => c.production && prefix != c.prefix && exists suffix :: Parts(doi, prefix, suffix)
       case DuplicateSuffix(n, suffix, first) =>
         && Uses(doi, suffix)
         && 1 <= first < n && Uses(dois[first - 1], suffix) && forall j | 0 <= j < first - 1 :: !Uses(dois[j], suffix)
  }

  lemma MalformedExact(doi: Option<string>)
    ensures HasDoi(doi) && Malformed(doi.value) <==>
              doi.Some? && doi.value != "" && forall prefix, suffix :: !Parts(doi, prefix, suffix)
  {
    if HasDoi(doi) {
      var (prefix, suffix) := Partition(doi.value);
      PartsExact(doi, prefix, suffix);
      if p, s :| Parts(doi, p, s) {
        PartsExact(doi, p, s);
      }
    }
  }

  lemma PrefixExact(doi: Option<string>, prefix: string)
    ensures (exists suffix :: Parts(doi, prefix, suffix)) <==> HasSuffix(doi) && Partition(doi.value).0 == prefix
  {
    if suffix :| Parts(doi, prefix, suffix) {
      PartsExact(doi, prefix, suffix);
    }
    if HasSuffix(doi) && Partition(doi.value).0 == prefix {
      PartsExact(doi, prefix, Suffix(doi.value));
    }
  }

  lemma DuplicateExact(dois: seq<Option<string>>, n: nat, suffix: string, first: nat)
    requires 1 <= n <= |dois|
    ensures suffix in SuffixesOf(dois[..n - 1]) && first == FirstWith(dois[..n - 1], suffix) + 1 <==>
              1 <= first < n && Uses(dois[first - 1], suffix) && forall j | 0 <= j < first - 1 :: !Uses(dois[j], suffix)
  {
    hide Uses, SuffixesOf;
    var before := dois[..n - 1];
    SuffixesExact(before, suffix);
    FirstExact(before, suffix);
    assert forall j | 0 <= j < n - 1 :: before[j] == dois[j];
  }

  /** The same, for one entry and the entries before it. */
  predicate Says(c: Config, before: seq<Option<string>>, doi: Option<string>, e: DoiError) {
    match e
    case MalformedDoi(_, text) => HasDoi(doi) && Malformed(doi.value) && text == doi.value
    case WrongPrefix(_, prefix) => c.production && prefix != c.prefix && HasSuffix(doi) && Partition(doi.value).0 == prefix
    case DuplicateSuffix(_, s, first) => UsesSuffix(doi, s) && s in SuffixesOf(before) && first == FirstWith(before, s) + 1
  }

  lemma ErrorsAtExact(c: Config, before: seq<Option<string>>, doi: Option<string>, e: DoiError)
    requires e.entry == |before| + 1
    ensures e in ErrorsAt(c, before, doi) <==> Says(c, before, doi, e)
  {
    hide SuffixesOf, FirstWith, Partition;
  }

  lemma SaysJustified(c: Config, dois: seq<Option<string>>, e: DoiError)
    requires 1 <= e.entry <= |dois|
    ensures Says(c, dois[..e.entry - 1], dois[e.entry - 1], e) <==> Justified(c, dois, e)
  {
    hide Malformed, Partition, HasSuffix, UsesSuffix, SuffixesOf, FirstWith, Parts, Uses;
    var doi := dois[e.entry - 1];
    match e
    case MalformedDoi(_, text) => MalformedExact(doi);
    case WrongPrefix(_, prefix) => PrefixExact(doi, prefix);
    case DuplicateSuffix(n, s, first) =>
      DuplicateExact(dois, n, s, first);
      UsesExact(doi, s);
  }

  lemma ErrorsExactly(c: Config, dois: seq<Option<string>>, e: DoiError)
    ensures e in ErrorsOf(c, dois) <==> Justified(c, dois, e)
  {
    ErrorsOfExact(c, dois, e);
    assert Justified(c, dois, e) ==> 1 <= e.entry <= |dois|;
    hide Justified, ErrorsOf, ErrorsAt, Says;
    if 1 <= e.entry <= |dois| {
      ErrorsAtExact(c, dois[..e.entry - 1], dois[e.entry - 1], e);
      SaysJustified(c, dois, e);
    }
  }

  /** The errors of the entries are exactly the justified ones, and the registered suffixes are those used by some entry
      whose DOI under the configured prefix is registered. */
  lemma ReportExactly(c: Config, dois: seq<Option<string>>, e: DoiError, suffix: string)
    ensures e in Validated(c, dois).errors <==> Justified(c, dois, e)
    ensures suffix in Validated(c, dois).registered <==>
              c.prefix + "/" + suffix in c.registered && exists i :: 0 <= i < |dois| && Uses(dois[i], suffix)
  {
    hide Uses, SuffixesOf, ErrorsOf, Justified;
    SuffixesExact(dois, suffix);
    ErrorsExactly(c, dois, e);
  }

  // ---------- The fix ----------

  /** Capital letters for small ones, and every other character as it is. */
  ghost predicate Capitals(text: string, upper: string) {
    && |upper| == |text|
    && forall k | 0 <= k < |text| ::
         if 'a' <= text[k] <= 'z' then upper[k] as int == 'A' as int + (text[k] as int - 'a' as int) else upper[k] == text[k]
  }

  /** The DOI minted from two random parts. */
  ghost predicate Fresh(c: Config, random: (string, string), doi: Option<string>) {
    && doi.Some?
    && Capitals(c.prefix + "/OPENDATA" + (if c.experiment == "" then "" else "." + c.experiment) + "." + random.0 + "." + random.1,
                doi.value)
  }

  lemma MintedIsFresh(c: Config, random: (string, string))
    ensures Fresh(c, random, Some(Minted(c, random)))
  {
    var tail := "." + random.0 + "." + random.1;
    var stem := if c.experiment != "" then "OPENDATA." + c.experiment else "OPENDATA";
    assert Join(c.prefix, stem + "." + random.0 + "." + random.1)
        == c.prefix + "/OPENDATA" + (if c.experiment == "" then "" else "." + c.experiment) + "." + random.0 + "." + random.1;
  }

  lemma {:induction false} UsedAreSuffixes(c: Config, dois: seq<Option<string>>, registered: set<string>,
                                           random: nat -> (string, string))
    requires '/' !in c.prefix
    ensures var (after, used) := FixAll(c, dois, registered, random); used == SuffixesOf(after)
  {
    hide Minted, FixOne, SuffixesOf, HasSuffix, Suffix;
    if dois == [] {
      NoDois(c, registered, random);
    } else {
      var n := |dois| - 1;
      UsedAreSuffixes(c, dois[..n], registered, random);
      var (init, used) := FixAll(c, dois[..n], registered, random);
      FixOneUses(c, dois[n], used, registered, random(n));
      SuffixesAppend(init, FixOne(c, dois[n], used, registered, random(n)).0);
    }
  }

  lemma FixOneUses(c: Config, doi: Option<string>, used: set<string>, registered: set<string>, random: (string, string))
    requires '/' !in c.prefix
    ensures var (doi', used') := FixOne(c, doi, used, registered, random);
            used' == used + (if HasSuffix(doi') then {Suffix(doi'.value)} else {})
  {
    hide Minted;
    MintedParts(c, random);
    if HasSuffix(doi) {
      PartitionJoined(c.prefix, Suffix(doi.value));
    }
  }

  lemma {:induction false} FixAllAt(c: Config, dois: seq<Option<string>>, registered: set<string>,
                                    random: nat -> (string, string), i: nat)
    requires i < |dois|
    ensures var after := FixAll(c, dois, registered, random).0;
            && after[..i] == FixAll(c, dois[..i], registered, random).0
            && after[i] == FixOne(c, dois[i], FixAll(c, dois[..i], registered, random).1, registered, random(i)).0
  {
    hide FixOne;
    var n := |dois| - 1;
    if i < n {
      FixAllAt(c, dois[..n], registered, random, i);
      assert dois[..n][..i] == dois[..i];
    }
  }

  /** The fix, entry by entry: an entry without a DOI is left alone; one whose DOI is malformed, or whose suffix is
      registered or used by an entry before it after the fix, gets a new one; any other keeps its suffix, and in production
      takes the configured prefix. */
  lemma FixExactly(c: Config, dois: seq<Option<string>>, random: nat -> (string, string), i: nat, prefix: string, suffix: string)
    requires '/' !in c.prefix && i < |dois|
    ensures var after := Fixed(c, dois, random);
            && (dois[i] == None || dois[i] == Some("") ==> after[i] == dois[i])
            && (dois[i].Some? && dois[i] != Some("") && (forall p, s :: !Parts(dois[i], p, s)) ==> Fresh(c, random(i), after[i]))
            && (Parts(dois[i], prefix, suffix) ==>
                  if c.prefix + "/" + suffix in c.registered || exists j :: 0 <= j < i && Uses(after[j], suffix)
                  then Fresh(c, random(i), after[i])
                  else after[i] == if c.production then Some(c.prefix + "/" + suffix) else dois[i])
  {
    hide Minted, FixAll, Fresh, SuffixesOf;
    var registered := RegisteredSuffixes(c, dois);
    var after := Fixed(c, dois, random);
    FixAllAt(c, dois, registered, random, i);
    UsedAreSuffixes(c, dois[..i], registered, random);
    MintedIsFresh(c, random(i));
    MalformedExact(dois[i]);
    PartsExact(dois[i], prefix, suffix);
    SuffixesExact(dois, suffix);
    SuffixesExact(after[..i], suffix);
    assert forall j | 0 <= j < i :: after[..i][j] == after[j];
    hide Uses;
    if Parts(dois[i], prefix, suffix) {
      assert Uses(dois[i], suffix) by { UsesExact(dois[i], suffix); }
    }
  }
}
