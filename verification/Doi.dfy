/** DOIs of the records of a release: validation, and the fix that mints new ones. */
module Doi {
  import opened Options
  import opened Text

  /** The configured prefix, whether prefixes are checked, the experiment, and the DOIs of the registry: all of
      them, and those with the registered status. */
  datatype Config =
    Config(prefix: string, production: bool, experiment: string, existing: set<string>, registered: set<string>)

  // ---------- The parts of a DOI ----------

  /** The parts before and after the first slash; without a slash there is no suffix. */
  function Partition(doi: string): (string, string) {
    match Cut(doi, '/')
    case None => (doi, "")
    case Some(parts) => parts
  }

  function Suffix(doi: string): string {
    Partition(doi).1
  }

  predicate Malformed(doi: string) {
    Suffix(doi) == ""
  }

  predicate HasDoi(doi: Option<string>) {
    doi.Some? && doi.value != ""
  }

  function Join(prefix: string, suffix: string): string {
    prefix + "/" + suffix
  }

  predicate SuffixRegistered(c: Config, suffix: string) {
    Join(c.prefix, suffix) in c.registered
  }

  // ---------- Minting ----------

  function UpperChar(c: char): char {
    if 'a' <= c <= 'z' then (c as int - 32) as char else c
  }

  function Upper(s: string): (r: string)
    ensures |r| == |s| && forall i | 0 <= i < |s| :: r[i] == UpperChar(s[i])
  {
    seq(|s|, i requires 0 <= i < |s| => UpperChar(s[i]))
  }

  /** Two random parts behind a fixed stem; the whole DOI, prefix included, is put in upper case. */
  function Minted(c: Config, random: (string, string)): string {
    var stem := if c.experiment != "" then "OPENDATA." + c.experiment else "OPENDATA";
    Upper(Join(c.prefix, stem + "." + random.0 + "." + random.1))
  }

  // ---------- Validation ----------

  datatype DoiError =
    | MalformedDoi(entry: nat, doi: string)
    | WrongPrefix(entry: nat, prefix: string)
    | DuplicateSuffix(entry: nat, suffix: string, first: nat)

  /** The registered suffixes come back in no particular order. */
  datatype Report = Report(errors: seq<DoiError>, registered: set<string>)

  predicate HasSuffix(doi: Option<string>) {
    HasDoi(doi) && !Malformed(doi.value)
  }

  predicate UsesSuffix(doi: Option<string>, suffix: string) {
    HasSuffix(doi) && Suffix(doi.value) == suffix
  }

  function SuffixesOf(dois: seq<Option<string>>): set<string> {
    set i | 0 <= i < |dois| && HasSuffix(dois[i]) :: Suffix(dois[i].value)
  }

  function FirstWith(dois: seq<Option<string>>, suffix: string): nat {
    if dois == [] || UsesSuffix(dois[0], suffix) then 0 else FirstWith(dois[1..], suffix) + 1
  }

  /** The errors of one entry, given the entries before it. */
  function ErrorsAt(c: Config, before: seq<Option<string>>, doi: Option<string>): seq<DoiError> {
    var entry := |before| + 1;
    if !HasDoi(doi) then []
    else if Malformed(doi.value) then [MalformedDoi(entry, doi.value)]
    else
      var (prefix, suffix) := Partition(doi.value);
      (if c.production && prefix != c.prefix then [WrongPrefix(entry, prefix)] else [])
      + if suffix in SuffixesOf(before) then [DuplicateSuffix(entry, suffix, FirstWith(before, suffix) + 1)] else []
  }

  function ErrorsOf(c: Config, dois: seq<Option<string>>): seq<DoiError> {
    if dois == [] then []
    else ErrorsOf(c, dois[..|dois| - 1]) + ErrorsAt(c, dois[..|dois| - 1], dois[|dois| - 1])
  }

  function RegisteredSuffixes(c: Config, dois: seq<Option<string>>): set<string> {
    set suffix | suffix in SuffixesOf(dois) && SuffixRegistered(c, suffix)
  }

  function Validated(c: Config, dois: seq<Option<string>>): Report {
    Report(ErrorsOf(c, dois), RegisteredSuffixes(c, dois))
  }

  const NO_ERRORS := Report([], {})

  // ---------- The fix ----------

  /** The new DOI, and the suffixes used so far. */
  function FixOne(c: Config, doi: Option<string>, used: set<string>, registered: set<string>, random: (string, string)):
    (Option<string>, set<string>)
  {
    if !HasDoi(doi) then (doi, used)
    else if Malformed(doi.value) then (Some(Minted(c, random)), used + {Suffix(Minted(c, random))})
    else
      var (prefix, suffix) := Partition(doi.value);
      if suffix in used || suffix in registered then (Some(Minted(c, random)), used + {Suffix(Minted(c, random))})
      else (if c.production && prefix != c.prefix then Some(Join(c.prefix, suffix)) else doi, used + {suffix})
  }

  /** The random parts are indexed by the entry that needs them. */
  function FixAll(c: Config, dois: seq<Option<string>>, registered: set<string>, random: nat -> (string, string)):
    (r: (seq<Option<string>>, set<string>))
    ensures |r.0| == |dois|
  {
    if dois == [] then ([], {})
    else
      var n := |dois| - 1;
      var (init, used) := FixAll(c, dois[..n], registered, random);
      var (last, used') := FixOne(c, dois[n], used, registered, random(n));
      (init + [last], used')
  }

  function Fixed(c: Config, dois: seq<Option<string>>, random: nat -> (string, string)): (r: seq<Option<string>>)
    ensures |r| == |dois|
  {
    FixAll(c, dois, RegisteredSuffixes(c, dois), random).0
  }

  // ---------- One DOI ----------

  lemma PartitionJoined(prefix: string, suffix: string)
    requires '/' !in prefix
    ensures Partition(Join(prefix, suffix)) == (prefix, suffix)
  {
    assert Join(prefix, suffix) == prefix + ['/'] + suffix;
    CutJoined(prefix, '/', suffix);
  }

  /** The configured prefix has no lower-case letter. */
  predicate PlainPrefix(c: Config) {
    Upper(c.prefix) == c.prefix
  }

  /** A minted DOI is the prefix in upper case, a slash, and a nonempty suffix. */
  lemma MintedParts(c: Config, random: (string, string))
    requires '/' !in c.prefix
    ensures var doi := Minted(c, random);
            && doi != "" && !Malformed(doi) && Partition(doi).0 == Upper(c.prefix)
            && (PlainPrefix(c) ==> doi == Join(c.prefix, Suffix(doi)))
  {
    var stem := if c.experiment != "" then "OPENDATA." + c.experiment else "OPENDATA";
    var rest := stem + "." + random.0 + "." + random.1;
    assert Upper(Join(c.prefix, rest)) == Join(Upper(c.prefix), Upper(rest));
    assert forall i | 0 <= i < |c.prefix| :: c.prefix[i] in c.prefix;
    assert '/' !in Upper(c.prefix);
    PartitionJoined(Upper(c.prefix), Upper(rest));
  }

  /** Nothing is wrong with the DOI itself: its form, its prefix in production, and its suffix is not registered. */
  predicate Sound(c: Config, doi: Option<string>) {
    HasDoi(doi) ==>
      && !Malformed(doi.value)
      && (c.production ==> Partition(doi.value).0 == c.prefix)
      && !SuffixRegistered(c, Suffix(doi.value))
  }

  /** The entry gets a minted DOI. */
  ghost predicate IsMinted(c: Config, dois: seq<Option<string>>, random: nat -> (string, string), i: nat)
    requires i < |dois|
  {
    NeedsMinting(dois[i], FixAll(c, dois[..i], RegisteredSuffixes(c, dois), random).1 + RegisteredSuffixes(c, dois))
  }

  predicate NeedsMinting(doi: Option<string>, taken: set<string>) {
    HasDoi(doi) && (Malformed(doi.value) || Suffix(doi.value) in taken)
  }

  /** Where a DOI is minted, it avoids the registry and the suffixes used so far. */
  ghost predicate FreshDraws(c: Config, dois: seq<Option<string>>, random: nat -> (string, string)) {
    forall i | 0 <= i < |dois| && IsMinted(c, dois, random, i) ::
      && Minted(c, random(i)) !in c.existing
      && Suffix(Minted(c, random(i))) !in FixAll(c, dois[..i], RegisteredSuffixes(c, dois), random).1
  }

  /** A minted DOI is sound exactly if its prefix passes, and its suffix is not registered under the configured one. */
  lemma MintedSound(c: Config, random: (string, string))
    requires '/' !in c.prefix
    ensures Sound(c, Some(Minted(c, random)))
       <==> (c.production ==> PlainPrefix(c)) && !SuffixRegistered(c, Suffix(Minted(c, random)))
    ensures PlainPrefix(c) && c.registered <= c.existing && Minted(c, random) !in c.existing ==>
              Sound(c, Some(Minted(c, random)))
  {
    hide Minted, Upper, Partition;
    MintedParts(c, random);
  }

  lemma FixOneSound(c: Config, doi: Option<string>, used: set<string>, registered: set<string>, random: (string, string))
    requires '/' !in c.prefix
    requires NeedsMinting(doi, used + registered) ==>
               Sound(c, Some(Minted(c, random))) && Suffix(Minted(c, random)) !in used
    requires HasSuffix(doi) && SuffixRegistered(c, Suffix(doi.value)) ==> Suffix(doi.value) in registered
    ensures var (doi', used') := FixOne(c, doi, used, registered, random);
            && Sound(c, doi')
            && HasDoi(doi') == HasDoi(doi)
            && used' == used + (if HasSuffix(doi') then {Suffix(doi'.value)} else {})
            && (HasSuffix(doi') ==> Suffix(doi'.value) !in used)
  {
    hide Minted, Upper;
    MintedParts(c, random);
    if HasSuffix(doi) {
      PartitionJoined(c.prefix, Suffix(doi.value));
    }
  }

  // ---------- The whole release ----------

  lemma SuffixesAppend(dois: seq<Option<string>>, doi: Option<string>)
    ensures SuffixesOf(dois + [doi]) == SuffixesOf(dois) + (if HasSuffix(doi) then {Suffix(doi.value)} else {})
  {
    hide Malformed, Suffix;
    var all := dois + [doi];
    forall s | s in SuffixesOf(dois) ensures s in SuffixesOf(all) {
      var i :| 0 <= i < |dois| && HasSuffix(dois[i]) && Suffix(dois[i].value) == s;
      assert all[i] == dois[i];
    }
    if HasSuffix(doi) {
      assert all[|dois|] == doi;
    }
  }

  lemma ErrorsAppend(c: Config, dois: seq<Option<string>>, doi: Option<string>)
    ensures ErrorsOf(c, dois + [doi]) == ErrorsOf(c, dois) + ErrorsAt(c, dois, doi)
  {
    assert (dois + [doi])[..|dois|] == dois;
  }

  lemma {:induction false} FixAllSound(c: Config, dois: seq<Option<string>>, random: nat -> (string, string), n: nat)
    requires '/' !in c.prefix && FreshDraws(c, dois, random) && n <= |dois|
    requires forall i | 0 <= i < n && IsMinted(c, dois, random, i) :: Sound(c, Some(Minted(c, random(i))))
    ensures var (after, used) := FixAll(c, dois[..n], RegisteredSuffixes(c, dois), random);
            && used == SuffixesOf(after) && ErrorsOf(c, after) == []
            && forall s | s in used :: !SuffixRegistered(c, s)
    decreases n
  {
    hide Minted, FixOne, SuffixesOf, ErrorsOf, Malformed, Sound, PlainPrefix, RegisteredSuffixes, FixAll, HasDoi, NeedsMinting;
    var registered := RegisteredSuffixes(c, dois);
    if n == 0 {
      NoDois(c, registered, random);
    } else {
      FixAllSound(c, dois, random, n - 1);
      assert dois[..n] == dois[..n - 1] + [dois[n - 1]];
      FixAllNext(c, dois[..n - 1], dois[n - 1], registered, random);
      var (init, used) := FixAll(c, dois[..n - 1], registered, random);
      OwnSuffixRegistered(c, dois, n - 1);
      assert IsMinted(c, dois, random, n - 1) ==> Sound(c, Some(Minted(c, random(n - 1))));
      FixOneSound(c, dois[n - 1], used, registered, random(n - 1));
      var (last, used') := FixOne(c, dois[n - 1], used, registered, random(n - 1));
      SuffixesAppend(init, last);
      ErrorsAppend(c, init, last);
      SoundHasNoErrors(c, init, last);
    }
  }

  lemma NoDois(c: Config, registered: set<string>, random: nat -> (string, string))
    ensures SuffixesOf([]) == {} && ErrorsOf(c, []) == [] && FixAll(c, [], registered, random) == ([], {})
  {
  }

  lemma FixAllNext(c: Config, dois: seq<Option<string>>, doi: Option<string>, registered: set<string>,
                   random: nat -> (string, string))
    ensures var (init, used) := FixAll(c, dois, registered, random);
            var (last, used') := FixOne(c, doi, used, registered, random(|dois|));
            FixAll(c, dois + [doi], registered, random) == (init + [last], used')
  {
    hide FixOne;
    assert (dois + [doi])[..|dois|] == dois;
  }

  lemma SoundHasNoErrors(c: Config, before: seq<Option<string>>, doi: Option<string>)
    requires Sound(c, doi) && (HasSuffix(doi) ==> Suffix(doi.value) !in SuffixesOf(before))
    ensures ErrorsAt(c, before, doi) == []
    ensures HasSuffix(doi) ==> !SuffixRegistered(c, Suffix(doi.value))
  {
  }

  lemma OwnSuffixRegistered(c: Config, dois: seq<Option<string>>, i: nat)
    requires i < |dois|
    ensures HasSuffix(dois[i]) && SuffixRegistered(c, Suffix(dois[i].value)) ==> Suffix(dois[i].value) in RegisteredSuffixes(c, dois)
  {
    if HasSuffix(dois[i]) {
      assert Suffix(dois[i].value) in SuffixesOf(dois);
    }
  }

  lemma SoundMintsMakeValid(c: Config, dois: seq<Option<string>>, random: nat -> (string, string))
    requires '/' !in c.prefix && FreshDraws(c, dois, random)
    requires forall i | 0 <= i < |dois| && IsMinted(c, dois, random, i) :: Sound(c, Some(Minted(c, random(i))))
    ensures Validated(c, Fixed(c, dois, random)) == NO_ERRORS
  {
    hide FixAll, SuffixesOf, ErrorsOf, Sound, IsMinted, FreshDraws;
    FixAllSound(c, dois, random, |dois|);
    assert dois[..|dois|] == dois;
  }

  /** If the minting avoids the registry and the suffixes used so far, and the configured prefix has no lower-case
      letter or nothing is minted, the fix leaves a release that validates without errors. */
  lemma FixMakesValid(c: Config, dois: seq<Option<string>>, random: nat -> (string, string))
    requires '/' !in c.prefix && c.registered <= c.existing && FreshDraws(c, dois, random)
    requires PlainPrefix(c) || forall i | 0 <= i < |dois| :: !IsMinted(c, dois, random, i)
    ensures Validated(c, Fixed(c, dois, random)) == NO_ERRORS
  {
    hide FixAll, SuffixesOf, ErrorsOf, PlainPrefix, IsMinted, Minted, Sound;
    forall i | 0 <= i < |dois| && IsMinted(c, dois, random, i) ensures Sound(c, Some(Minted(c, random(i)))) {
      MintedSound(c, random(i));
    }
    SoundMintsMakeValid(c, dois, random);
  }

  lemma {:induction false} MintedStays(c: Config, dois: seq<Option<string>>, random: nat -> (string, string), i: nat, n: nat)
    requires i < n <= |dois| && IsMinted(c, dois, random, i)
    ensures FixAll(c, dois[..n], RegisteredSuffixes(c, dois), random).0[i] == Some(Minted(c, random(i)))
    decreases n
  {
    hide Minted, RegisteredSuffixes;
    assert dois[..n][..n - 1] == dois[..n - 1];
    if i < n - 1 {
      MintedStays(c, dois, random, i, n - 1);
    }
  }

  lemma {:induction false} WrongPrefixReported(c: Config, dois: seq<Option<string>>, i: nat)
    requires i < |dois| && HasSuffix(dois[i]) && c.production && Partition(dois[i].value).0 != c.prefix
    ensures ErrorsOf(c, dois) != []
  {
    hide HasSuffix, Partition;
    if i < |dois| - 1 {
      WrongPrefixReported(c, dois[..|dois| - 1], i);
    } else {
      assert ErrorsAt(c, dois[..i], dois[i]) != [] by { WrongPrefixHere(c, dois[..i], dois[i]); }
    }
  }

  lemma WrongPrefixHere(c: Config, before: seq<Option<string>>, doi: Option<string>)
    requires HasSuffix(doi) && c.production && Partition(doi.value).0 != c.prefix
    ensures ErrorsAt(c, before, doi) != []
  {
  }

  /** A minted DOI passes the validation although its prefix has lower-case letters. */
  predicate PassesAnyway(c: Config, random: (string, string)) {
    !c.production && !SuffixRegistered(c, Suffix(Minted(c, random)))
  }

  /** The exact condition for any prefix. With a lower-case letter in it, every minted DOI is wrong in production; where
      prefixes are not checked, it is wrong if its suffix is registered under the configured prefix. */
  lemma FixMakesValidExactly(c: Config, dois: seq<Option<string>>, random: nat -> (string, string))
    requires '/' !in c.prefix && c.registered <= c.existing && FreshDraws(c, dois, random)
    ensures Validated(c, Fixed(c, dois, random)) == NO_ERRORS <==>
              PlainPrefix(c) || forall i | 0 <= i < |dois| && IsMinted(c, dois, random, i) :: PassesAnyway(c, random(i))
  {
    hide FixAll, SuffixesOf, ErrorsOf, IsMinted, FreshDraws, Minted, Upper, Sound, RegisteredSuffixes;
    if PlainPrefix(c) {
      FixMakesValid(c, dois, random);
    } else if i :| 0 <= i < |dois| && IsMinted(c, dois, random, i) && !PassesAnyway(c, random(i)) {
      MintedSpoils(c, dois, random, i);
    } else {
      forall i | 0 <= i < |dois| && IsMinted(c, dois, random, i) ensures Sound(c, Some(Minted(c, random(i)))) {
        MintedSound(c, random(i));
      }
      SoundMintsMakeValid(c, dois, random);
    }
  }

  lemma MintedSpoils(c: Config, dois: seq<Option<string>>, random: nat -> (string, string), i: nat)
    requires '/' !in c.prefix && !PlainPrefix(c) && i < |dois| && IsMinted(c, dois, random, i) && !PassesAnyway(c, random(i))
    ensures Validated(c, Fixed(c, dois, random)) != NO_ERRORS
  {
    hide FixAll, SuffixesOf, ErrorsOf, IsMinted, Minted, Upper, RegisteredSuffixes;
    var after := Fixed(c, dois, random);
    MintedStays(c, dois, random, i, |dois|);
    assert dois[..|dois|] == dois;
    MintedParts(c, random(i));
    if c.production {
      WrongPrefixReported(c, after, i);
    } else {
      OwnSuffixRegistered(c, after, i);
    }
  }

  // ---------- Which releases need no minting ----------

  /** The DOI of an entry is well formed, its suffix is not registered, and no entry before has it. */
  ghost predicate Usable(c: Config, dois: seq<Option<string>>, i: nat)
    requires i < |dois|
  {
    HasDoi(dois[i]) ==>
      && HasSuffix(dois[i]) && !SuffixRegistered(c, Suffix(dois[i].value))
      && forall j | 0 <= j < i :: !UsesSuffix(dois[j], Suffix(dois[i].value))
  }

  lemma FixOneUnminted(c: Config, doi: Option<string>, used: set<string>, registered: set<string>, random: (string, string))
    requires !NeedsMinting(doi, used + registered)
    ensures FixOne(c, doi, used, registered, random).1 == used + if HasSuffix(doi) then {Suffix(doi.value)} else {}
  {
    hide Minted;
    assert used + {} == used;
  }

  lemma {:induction false} UnmintedSuffixes(c: Config, dois: seq<Option<string>>, random: nat -> (string, string), n: nat)
    requires n <= |dois| && forall i | 0 <= i < n :: !IsMinted(c, dois, random, i)
    ensures FixAll(c, dois[..n], RegisteredSuffixes(c, dois), random).1 == SuffixesOf(dois[..n])
    decreases n
  {
    hide FixOne, FixAll, SuffixesOf, RegisteredSuffixes, NeedsMinting, HasSuffix;
    var registered := RegisteredSuffixes(c, dois);
    if n == 0 {
      NoDois(c, registered, random);
    } else {
      UnmintedSuffixes(c, dois, random, n - 1);
      assert dois[..n] == dois[..n - 1] + [dois[n - 1]];
      FixAllNext(c, dois[..n - 1], dois[n - 1], registered, random);
      assert !IsMinted(c, dois, random, n - 1);
      FixOneUnminted(c, dois[n - 1], FixAll(c, dois[..n - 1], registered, random).1, registered, random(n - 1));
      SuffixesAppend(dois[..n - 1], dois[n - 1]);
    }
  }

  lemma MintedAt(c: Config, dois: seq<Option<string>>, random: nat -> (string, string), n: nat)
    requires n < |dois| && forall i | 0 <= i < n :: !IsMinted(c, dois, random, i)
    ensures IsMinted(c, dois, random, n) <==> !Usable(c, dois, n)
  {
    UnmintedSuffixes(c, dois, random, n);
    OwnSuffixRegistered(c, dois, n);
    hide FixAll, Suffix, Malformed, SuffixRegistered;
    if HasSuffix(dois[n]) {
      UsedBefore(dois, n, Suffix(dois[n].value));
    }
  }

  lemma UsedBefore(dois: seq<Option<string>>, n: nat, suffix: string)
    requires n <= |dois|
    ensures suffix in SuffixesOf(dois[..n]) <==> exists j :: 0 <= j < n && UsesSuffix(dois[j], suffix)
  {
    hide HasSuffix, Suffix;
    if j :| 0 <= j < n && UsesSuffix(dois[j], suffix) {
      assert dois[..n][j] == dois[j];
    }
  }

  lemma {:induction false} NoneMintedBefore(c: Config, dois: seq<Option<string>>, random: nat -> (string, string), n: nat)
    requires n <= |dois|
    ensures (forall i | 0 <= i < n :: !IsMinted(c, dois, random, i)) <==> (forall i | 0 <= i < n :: Usable(c, dois, i))
    decreases n
  {
    hide IsMinted, Usable;
    if n > 0 {
      NoneMintedBefore(c, dois, random, n - 1);
      if forall i | 0 <= i < n - 1 :: !IsMinted(c, dois, random, i) {
        MintedAt(c, dois, random, n - 1);
      }
    }
  }

  /** In production, read off the release: the fix leaves a release that validates exactly if the prefix has no lower-case
      letter, or every DOI is well formed, no suffix is repeated and none is registered. */
  lemma FixMakesValidInProduction(c: Config, dois: seq<Option<string>>, random: nat -> (string, string))
    requires '/' !in c.prefix && c.registered <= c.existing && FreshDraws(c, dois, random) && c.production
    ensures Validated(c, Fixed(c, dois, random)) == NO_ERRORS <==>
              PlainPrefix(c) || forall i | 0 <= i < |dois| :: Usable(c, dois, i)
  {
    hide IsMinted, Usable, FreshDraws, Validated, Fixed, PlainPrefix;
    FixMakesValidExactly(c, dois, random);
    NoneMintedBefore(c, dois, random, |dois|);
  }

  const LOWER_CASE := Config("a", true, "", {}, {})
  const DRAWS: nat -> (string, string) := (i: nat) => ("1", "2")

  lemma DrawnDoi()
    ensures Minted(LOWER_CASE, ("1", "2")) == "A/OPENDATA.1.2"
    ensures Partition("A/OPENDATA.1.2") == ("A", "OPENDATA.1.2")
  {
    assert Join("a", "OPENDATA" + "." + "1" + "." + "2") == "a/OPENDATA.1.2";
    assert Upper("a/OPENDATA.1.2") == "A/OPENDATA.1.2";
    assert Join("A", "OPENDATA.1.2") == "A/OPENDATA.1.2";
    PartitionJoined("A", "OPENDATA.1.2");
  }

  lemma OneReport(c: Config, doi: string)
    requires doi != "" && !Malformed(doi) && c.production && c.registered == {}
    ensures Validated(c, [Some(doi)])
         == Report(if Partition(doi).0 == c.prefix then [] else [WrongPrefix(1, Partition(doi).0)], {})
  {
    hide Partition;
    NoDois(c, {}, DRAWS);
    ErrorsAppend(c, [], Some(doi));
    assert [] + [Some(doi)] == [Some(doi)];
  }

  /** The prefix "a" in production: a malformed DOI gets a new one that is wrong again; a good one stays good. */
  lemma LowerCasePrefixFails()
    ensures FreshDraws(LOWER_CASE, [Some("x")], DRAWS) && Fixed(LOWER_CASE, [Some("x")], DRAWS) == [Some("A/OPENDATA.1.2")]
    ensures Validated(LOWER_CASE, [Some("A/OPENDATA.1.2")]) == Report([WrongPrefix(1, "A")], {})
    ensures Validated(LOWER_CASE, [Some("a/b")]) == NO_ERRORS && Fixed(LOWER_CASE, [Some("a/b")], DRAWS) == [Some("a/b")]
  {
    hide Minted, Partition;
    var c, dois := LOWER_CASE, [Some("x")];
    DrawnDoi();
    assert Join("a", "b") == "a/b";
    PartitionJoined("a", "b");
    OneReport(c, "A/OPENDATA.1.2");
    OneReport(c, "a/b");
    FixKeepsValid(c, [Some("a/b")], DRAWS);
    assert Malformed("x") by { NoSlash("x"); }
    NoDois(c, {}, DRAWS);
    assert RegisteredSuffixes(c, dois) == {};
    FixAllNext(c, [], Some("x"), {}, DRAWS);
    assert [] + [Some("x")] == dois && dois[..0] == [];
  }

  lemma NoSlash(doi: string)
    requires '/' !in doi
    ensures Malformed(doi)
  {
  }

  // ---------- A valid release is left alone ----------

  lemma {:induction false} ValidUnchanged(c: Config, dois: seq<Option<string>>, registered: set<string>,
                                          random: nat -> (string, string))
    requires ErrorsOf(c, dois) == [] && SuffixesOf(dois) !! registered
    ensures FixAll(c, dois, registered, random) == (dois, SuffixesOf(dois))
  {
    hide Minted, SuffixesOf, FixOne, ErrorsAt;
    if dois == [] {
      NoDois(c, registered, random);
    } else {
      var n := |dois| - 1;
      assert dois == dois[..n] + [dois[n]];
      SuffixesAppend(dois[..n], dois[n]);
      ValidUnchanged(c, dois[..n], registered, random);
      FineKept(c, dois[..n], dois[n], registered, random(n));
    }
  }

  lemma FineKept(c: Config, before: seq<Option<string>>, doi: Option<string>, registered: set<string>, random: (string, string))
    requires ErrorsAt(c, before, doi) == [] && (HasSuffix(doi) ==> Suffix(doi.value) !in registered)
    ensures FixOne(c, doi, SuffixesOf(before), registered, random)
         == (doi, SuffixesOf(before) + (if HasSuffix(doi) then {Suffix(doi.value)} else {}))
  {
    hide Minted, SuffixesOf;
    assert SuffixesOf(before) + {} == SuffixesOf(before);
  }

  /** The fix does not touch a release that validates without errors, whatever the minting would give. */
  lemma FixKeepsValid(c: Config, dois: seq<Option<string>>, random: nat -> (string, string))
    requires Validated(c, dois) == NO_ERRORS
    ensures Fixed(c, dois, random) == dois
  {
    hide FixAll, SuffixesOf, ErrorsOf;
    ValidUnchanged(c, dois, {}, random);
  }

  lemma NoErrorsAt(c: Config, before: seq<Option<string>>, doi: Option<string>)
    ensures ErrorsAt(c, before, doi) == [] <==>
              (HasDoi(doi) ==> && HasSuffix(doi) && (c.production ==> Partition(doi.value).0 == c.prefix)
                               && forall i | 0 <= i < |before| :: !UsesSuffix(before[i], Suffix(doi.value)))
  {
    if HasSuffix(doi) {
      assert Suffix(doi.value) in SuffixesOf(before) <==>
             exists i :: 0 <= i < |before| && UsesSuffix(before[i], Suffix(doi.value));
    }
  }

  /** The DOI of an entry is well formed, has the prefix in production, and repeats no earlier suffix. */
  ghost predicate FineAt(c: Config, dois: seq<Option<string>>, j: nat)
    requires j < |dois|
  {
    HasDoi(dois[j]) ==> && HasSuffix(dois[j]) && (c.production ==> Partition(dois[j].value).0 == c.prefix)
                        && forall i | 0 <= i < j :: !UsesSuffix(dois[i], Suffix(dois[j].value))
  }

  lemma FineInPrefix(c: Config, dois: seq<Option<string>>, n: nat, j: nat)
    requires j < n <= |dois|
    ensures FineAt(c, dois[..n], j) <==> FineAt(c, dois, j)
  {
    hide Partition, UsesSuffix, Malformed;
    assert forall i | 0 <= i <= j :: dois[..n][i] == dois[i];
    if FineAt(c, dois[..n], j) && HasDoi(dois[j]) {
      forall i | 0 <= i < j ensures !UsesSuffix(dois[i], Suffix(dois[j].value)) {
        assert !UsesSuffix(dois[..n][i], Suffix(dois[j].value));
      }
    }
  }

  /** Validation lists no errors exactly if every entry is fine. */
  lemma {:induction false} NoErrorsExact(c: Config, dois: seq<Option<string>>)
    ensures ErrorsOf(c, dois) == [] <==> forall j | 0 <= j < |dois| :: FineAt(c, dois, j)
  {
    hide ErrorsAt, FineAt;
    if dois != [] {
      var n := |dois| - 1;
      NoErrorsExact(c, dois[..n]);
      LastFine(c, dois);
      forall j | 0 <= j < n ensures FineAt(c, dois[..n], j) <==> FineAt(c, dois, j) {
        FineInPrefix(c, dois, n, j);
      }
    }
  }

  lemma LastFine(c: Config, dois: seq<Option<string>>)
    requires dois != []
    ensures var n := |dois| - 1; ErrorsAt(c, dois[..n], dois[n]) == [] <==> FineAt(c, dois, n)
  {
    hide Partition, UsesSuffix, Malformed, ErrorsAt;
    var n := |dois| - 1;
    NoErrorsAt(c, dois[..n], dois[n]);
    assert forall i | 0 <= i < n :: dois[..n][i] == dois[i];
    if FineAt(c, dois, n) && HasDoi(dois[n]) {
      forall i | 0 <= i < n ensures !UsesSuffix(dois[..n][i], Suffix(dois[n].value)) {
        assert !UsesSuffix(dois[i], Suffix(dois[n].value));
      }
    }
  }

  // ---------- The validation, working on the release in place ----------

  /** Each suffix used so far, with the first entry that uses it. */
  ghost predicate FirstUses(used: map<string, nat>, dois: seq<Option<string>>) {
    used.Keys == SuffixesOf(dois) && forall s | s in used :: used[s] == FirstWith(dois, s)
  }

  lemma {:induction false} FirstWithAppend(dois: seq<Option<string>>, doi: Option<string>, suffix: string)
    ensures FirstWith(dois + [doi], suffix)
         == if suffix in SuffixesOf(dois) then FirstWith(dois, suffix)
            else if UsesSuffix(doi, suffix) then |dois| else |dois| + 1
  {
    hide UsesSuffix, SuffixesOf;
    var all := dois + [doi];
    if dois == [] {
      assert all[1..] == [];
      NoSuffix(suffix);
    } else {
      assert all[1..] == dois[1..] + [doi] && all[0] == dois[0];
      FirstWithAppend(dois[1..], doi, suffix);
      SuffixesHead(dois, suffix);
    }
  }

  lemma NoSuffix(suffix: string)
    ensures suffix !in SuffixesOf([])
  {
  }

  lemma SuffixesHead(dois: seq<Option<string>>, suffix: string)
    requires dois != []
    ensures suffix in SuffixesOf(dois) <==> UsesSuffix(dois[0], suffix) || suffix in SuffixesOf(dois[1..])
  {
    hide Malformed, Suffix;
    if suffix in SuffixesOf(dois[1..]) {
      var i :| 0 <= i < |dois[1..]| && HasSuffix(dois[1..][i]) && Suffix(dois[1..][i].value) == suffix;
      assert dois[i + 1] == dois[1..][i];
    }
    if suffix in SuffixesOf(dois) && !UsesSuffix(dois[0], suffix) {
      var i :| 0 <= i < |dois| && HasSuffix(dois[i]) && Suffix(dois[i].value) == suffix;
      assert dois[1..][i - 1] == dois[i];
    }
  }

  lemma FirstUsesNext(used: map<string, nat>, dois: seq<Option<string>>, doi: Option<string>)
    requires FirstUses(used, dois)
    ensures FirstUses(if HasSuffix(doi) && Suffix(doi.value) !in used then used[Suffix(doi.value) := |dois|] else used, dois + [doi])
  {
    hide SuffixesOf, FirstWith, Malformed, HasDoi, Suffix;
    SuffixesAppend(dois, doi);
    forall s ensures FirstWith(dois + [doi], s)
                  == if s in SuffixesOf(dois) then FirstWith(dois, s)
                     else if UsesSuffix(doi, s) then |dois| else |dois| + 1 {
      FirstWithAppend(dois, doi, s);
    }
  }

  class ValidDoi {
    const config: Config
    var dois: seq<Option<string>>

    constructor (config: Config, dois: seq<Option<string>>)
      ensures this.config == config && this.dois == dois
    {
      this.config, this.dois := config, dois;
    }

    method Validate() returns (report: Report)
      ensures report == Validated(config, dois)
    {
      hide SuffixesOf, FirstWith, ErrorsOf, FirstUses, Partition;
      var errors: seq<DoiError>, used: map<string, nat> := [], map[];
      NoDois(config, {}, (i: nat) => ("", ""));
      assert FirstUses(used, []) by { NothingUsed(); }
      for i := 0 to |dois|
        invariant errors == ErrorsOf(config, dois[..i])
        invariant FirstUses(used, dois[..i])
      {
        assert dois[..i + 1] == dois[..i] + [dois[i]];
        ErrorsAppend(config, dois[..i], dois[i]);
        FirstUsesNext(used, dois[..i], dois[i]);
        UsedSuffixes(used, dois[..i]);
        var doi := dois[i];
        if !HasDoi(doi) {
          continue;
        }
        var (prefix, suffix) := Partition(doi.value);
        if suffix == "" {
          errors := errors + [MalformedDoi(i + 1, doi.value)];
          continue;
        }
        if config.production && prefix != config.prefix {
          errors := errors + [WrongPrefix(i + 1, prefix)];
        }
        if suffix in used {
          errors := errors + [DuplicateSuffix(i + 1, suffix, used[suffix] + 1)];
        } else {
          used := used[suffix := i];
        }
      }
      assert dois[..|dois|] == dois;
      UsedSuffixes(used, dois);
      var registered := set suffix | suffix in used && SuffixRegistered(config, suffix);
      report := Report(errors, registered);
    }

    /** One iteration of the loop of Fix. */
    method FixEntry(i: nat, used: set<string>, registered: set<string>, random: (string, string)) returns (used': set<string>)
      requires i < |dois|
      modifies this`dois
      ensures var (doi, after) := FixOne(config, old(dois)[i], used, registered, random);
              dois == old(dois)[i := doi] && used' == after
    {
      hide Partition, Minted;
      var doi := dois[i];
      used' := used;
      if !HasDoi(doi) {
        return;
      }
      var (prefix, suffix) := Partition(doi.value);
      if suffix == "" {
        dois := dois[i := Some(Minted(config, random))];
        return used + {Suffix(Minted(config, random))};
      }
      if config.production && prefix != config.prefix {
        dois := dois[i := Some(Join(config.prefix, suffix))];
      }
      if suffix in used || suffix in registered {
        dois := dois[i := Some(Minted(config, random))];
        suffix := Suffix(Minted(config, random));
      }
      used' := used + {suffix};
    }

    /** Returns what validation says afterwards. */
    method Fix(random: nat -> (string, string)) returns (report: Report)
      modifies this`dois
      ensures dois == Fixed(config, old(dois), random)
      ensures report == Validated(config, dois)
    {
      hide FixOne, FixAll, RegisteredSuffixes;
      ghost var before := dois;
      var registered, used: set<string> := RegisteredSuffixes(config, dois), {};
      NoDois(config, registered, random);
      for i := 0 to |dois|
        invariant |dois| == |before| && dois[i..] == before[i..]
        invariant (dois[..i], used) == FixAll(config, before[..i], registered, random)
      {
        ghost var done, rest := dois[..i], dois[i..];
        assert before[..i + 1] == before[..i] + [before[i]];
        FixAllNext(config, before[..i], before[i], registered, random);
        assert dois[i] == rest[0] == before[i];
        used := FixEntry(i, used, registered, random(i));
        assert dois[..i + 1] == done + [dois[i]];
        assert dois[i + 1..] == rest[1..] == before[i + 1..];
      }
      assert before[..|dois|] == before && dois[..|dois|] == dois;
      report := Validate();
    }
  }

  lemma NothingUsed()
    ensures FirstUses(map[], [])
  {
  }

  lemma UsedSuffixes(used: map<string, nat>, dois: seq<Option<string>>)
    requires FirstUses(used, dois)
    ensures used.Keys == SuffixesOf(dois) && forall s | s in used :: used[s] == FirstWith(dois, s)
  {
  }
}
