/** What staging registers and what rollback removes, exactly. */
module ReleaseRegistry {
  import opened Options
  import opened Sequences
  import opened ReleaseModel

  // ---------- Lists of identifiers ----------

  function MintedValues(records: seq<Entry>): seq<Option<string>> {
    if records == [] then [] else MintedValues(records[..|records| - 1]) + [Minted(records[|records| - 1])]
  }

  function Recids(records: seq<Entry>): seq<Option<string>> {
    if records == [] then [] else Recids(records[..|records| - 1]) + [records[|records| - 1].recid]
  }

  /** A record value stands for two identifiers. */
  function RecordPids(values: seq<Option<string>>): seq<Pid> {
    if values == [] then []
    else
      var last := values[|values| - 1];
      RecordPids(values[..|values| - 1]) + if last.Some? then [Recid(last.value), Oai(last.value)] else []
  }

  function SlugPids(slugs: seq<Option<string>>): seq<Pid> {
    if slugs == [] then []
    else
      var last := slugs[|slugs| - 1];
      SlugPids(slugs[..|slugs| - 1]) + if last.Some? then [DocId(last.value)] else []
  }

  function NonEmpty(slugs: seq<Option<string>>): seq<Option<string>> {
    if slugs == [] then []
    else
      var last := slugs[|slugs| - 1];
      NonEmpty(slugs[..|slugs| - 1]) + if last == Some("") then [] else [last]
  }

  function MintPids(reg: Registry, owner: Owner, pids: seq<Pid>): Option<Registry> {
    if pids == [] then Some(reg)
    else
      match MintPids(reg, owner, pids[..|pids| - 1])
      case None => None
      case Some(reg1) => Register(reg1, pids[|pids| - 1], owner)
  }

  function RemovePids(reg: Registry, pids: seq<Pid>): Option<Registry> {
    if pids == [] then Some(reg)
    else
      match RemovePids(reg, pids[..|pids| - 1])
      case None => None
      case Some(reg1) => if pids[|pids| - 1] in reg1 then Some(reg1 - {pids[|pids| - 1]}) else None
  }

  ghost function Extended(reg: Registry, owner: Owner, keys: set<Pid>): Registry {
    map p | p in reg.Keys + keys :: if p in keys then owner else reg[p]
  }

  lemma ExtendedNext(reg: Registry, owner: Owner, keys: set<Pid>, p: Pid)
    ensures p in Extended(reg, owner, keys) <==> p in reg || p in keys
    ensures Extended(reg, owner, keys + {p}) == Extended(reg, owner, keys)[p := owner]
  {
  }

  /** Registering a list succeeds exactly if it has no repetition and nothing of it is taken. */
  lemma {:induction false} MintPidsExact(reg: Registry, owner: Owner, pids: seq<Pid>)
    ensures MintPids(reg, owner, pids)
         == if Distinct(pids) && Members(pids) !! reg.Keys then Some(Extended(reg, owner, Members(pids))) else None
  {
    if pids == [] {
      assert Extended(reg, owner, Members(pids)) == reg;
    } else {
      hide Distinct, MintPids, Extended, Members;
      var init, p := pids[..|pids| - 1], pids[|pids| - 1];
      MintPidsExact(reg, owner, init);
      assert pids == init + [p];
      DistinctAppend(init, p);
      MembersAppend(init, p);
      MintOne(reg, owner, init, p);
      ExtendedNext(reg, owner, Members(init), p);
    }
  }

  lemma WithoutNext(reg: Registry, keys: set<Pid>, p: Pid)
    ensures p in reg - keys <==> p in reg && p !in keys
    ensures reg - keys - {p} == reg - (keys + {p})
    ensures keys + {p} <= reg.Keys <==> keys <= reg.Keys && p in reg
  {
  }

  lemma {:induction false} RemovePidsExact(reg: Registry, pids: seq<Pid>)
    ensures RemovePids(reg, pids)
         == if Distinct(pids) && Members(pids) <= reg.Keys then Some(reg - Members(pids)) else None
  {
    if pids == [] {
      assert reg - Members(pids) == reg;
    } else {
      hide Distinct, RemovePids, Members;
      var init, p := pids[..|pids| - 1], pids[|pids| - 1];
      RemovePidsExact(reg, init);
      assert pids == init + [p];
      DistinctAppend(init, p);
      MembersAppend(init, p);
      RemoveOne(reg, init, p);
      WithoutNext(reg, Members(init), p);
    }
  }

  lemma MintTwo(reg: Registry, owner: Owner, pids: seq<Pid>, a: Pid, b: Pid)
    ensures MintPids(reg, owner, pids + [a, b])
         == match MintPids(reg, owner, pids)
            case None => None
            case Some(reg1) => match Register(reg1, a, owner) case None => None case Some(reg2) => Register(reg2, b, owner)
  {
    assert (pids + [a, b])[..|pids| + 1] == pids + [a];
    assert (pids + [a])[..|pids|] == pids;
  }

  lemma RemoveTwo(reg: Registry, pids: seq<Pid>, a: Pid, b: Pid)
    requires a != b
    ensures RemovePids(reg, pids + [a, b])
         == match RemovePids(reg, pids)
            case None => None
            case Some(reg1) => if a in reg1 && b in reg1 then Some(reg1 - {a, b}) else None
  {
    assert (pids + [a, b])[..|pids| + 1] == pids + [a];
    assert (pids + [a])[..|pids|] == pids;
    if RemovePids(reg, pids).Some? {
      var reg1 := RemovePids(reg, pids).value;
      assert reg1 - {a} - {b} == reg1 - {a, b};
    }
  }

  // ---------- What staging registers and rollback removes, as lists ----------

  lemma {:induction false} MintRecordsList(reg: Registry, owner: Owner, records: seq<Entry>)
    ensures var values := MintedValues(records);
            MintRecords(reg, owner, records)
              == if None in values then None else MintPids(reg, owner, RecordPids(values))
  {
    if records != [] {
      var n := |records| - 1;
      var values, v := MintedValues(records[..n]), Minted(records[n]);
      MintRecordsList(reg, owner, records[..n]);
      assert (values + [v])[..|values|] == values;
      if v.Some? {
        MintTwo(reg, owner, RecordPids(values), Recid(v.value), Oai(v.value));
      }
    }
  }

  lemma {:induction false} RemoveRecordsList(reg: Registry, records: seq<Entry>)
    ensures var values := Recids(records);
            RemoveRecords(reg, records) == if None in values then None else RemovePids(reg, RecordPids(values))
  {
    if records != [] {
      var n := |records| - 1;
      var values, v := Recids(records[..n]), records[n].recid;
      RemoveRecordsList(reg, records[..n]);
      assert (values + [v])[..|values|] == values;
      if v.Some? {
        RemoveTwo(reg, RecordPids(values), Recid(v.value), Oai(v.value));
      }
    }
  }

  function SlugPid(slug: Option<string>): seq<Pid> {
    if slug.Some? then [DocId(slug.value)] else []
  }

  lemma SlugPidsAppend(slugs: seq<Option<string>>, slug: Option<string>)
    ensures SlugPids(slugs + [slug]) == SlugPids(slugs) + SlugPid(slug)
  {
    assert (slugs + [slug])[..|slugs|] == slugs;
  }

  lemma MintOne(reg: Registry, owner: Owner, pids: seq<Pid>, p: Pid)
    ensures MintPids(reg, owner, pids + [p])
         == match MintPids(reg, owner, pids) case None => None case Some(reg1) => Register(reg1, p, owner)
  {
    assert (pids + [p])[..|pids|] == pids;
  }

  lemma RemoveOne(reg: Registry, pids: seq<Pid>, p: Pid)
    ensures RemovePids(reg, pids + [p])
         == match RemovePids(reg, pids)
            case None => None
            case Some(reg1) => if p in reg1 then Some(reg1 - {p}) else None
  {
    assert (pids + [p])[..|pids|] == pids;
  }

  lemma {:induction false} MintDocumentsList(reg: Registry, owner: Owner, pids: seq<Pid>, slugs: seq<Option<string>>)
    requires MintPids(reg, owner, pids).Some?
    ensures MintDocuments(MintPids(reg, owner, pids).value, owner, slugs)
         == if None in slugs then None else MintPids(reg, owner, pids + SlugPids(slugs))
  {
    hide MintPids, SlugPids, Register;
    if slugs == [] {
      assert pids + SlugPids(slugs) == pids by { NoSlugPids(); }
    } else {
      var init, slug := slugs[..|slugs| - 1], slugs[|slugs| - 1];
      assert slugs == init + [slug];
      MintDocumentsList(reg, owner, pids, init);
      SlugPidsAppend(init, slug);
      if slug.Some? {
        assert pids + SlugPids(slugs) == pids + SlugPids(init) + [DocId(slug.value)];
        MintOne(reg, owner, pids + SlugPids(init), DocId(slug.value));
      }
    }
  }

  lemma NoSlugPids()
    ensures SlugPids([]) == []
  {
  }

  lemma NonEmptyAppend(slugs: seq<Option<string>>, slug: Option<string>)
    ensures NonEmpty(slugs + [slug]) == if slug == Some("") then NonEmpty(slugs) else NonEmpty(slugs) + [slug]
  {
    assert (slugs + [slug])[..|slugs|] == slugs;
    assert NonEmpty(slugs) + [] == NonEmpty(slugs);
  }

  /** The identifiers a removal looks up for one more document. */
  lemma KeptSlugPids(slugs: seq<Option<string>>, slug: Option<string>)
    ensures SlugPids(NonEmpty(slugs + [slug]))
         == SlugPids(NonEmpty(slugs)) + if slug == Some("") then [] else SlugPid(slug)
  {
    hide NonEmpty, SlugPids;
    NonEmptyAppend(slugs, slug);
    if slug != Some("") {
      SlugPidsAppend(NonEmpty(slugs), slug);
    }
  }

  lemma {:induction false} RemoveDocumentsList(reg: Registry, pids: seq<Pid>, slugs: seq<Option<string>>)
    requires RemovePids(reg, pids).Some?
    ensures RemoveDocuments(RemovePids(reg, pids).value, slugs) == RemovePids(reg, pids + SlugPids(NonEmpty(slugs)))
  {
    hide RemovePids, SlugPids, NonEmpty;
    if slugs == [] {
      assert pids + SlugPids(NonEmpty(slugs)) == pids by { NoKeptPids(); }
    } else {
      var init, slug := slugs[..|slugs| - 1], slugs[|slugs| - 1];
      var kept := pids + SlugPids(NonEmpty(init));
      assert slugs == init + [slug];
      RemoveDocumentsList(reg, pids, init);
      KeptSlugPids(init, slug);
      if slug.None? || slug == Some("") {
        assert pids + SlugPids(NonEmpty(slugs)) == kept;
      } else {
        assert pids + SlugPids(NonEmpty(slugs)) == kept + [DocId(slug.value)];
        RemoveOne(reg, kept, DocId(slug.value));
      }
    }
  }

  lemma NoKeptPids()
    ensures SlugPids(NonEmpty([])) == []
  {
  }

  lemma {:induction false} MintPidsPrefix(reg: Registry, owner: Owner, a: seq<Pid>, b: seq<Pid>)
    requires MintPids(reg, owner, a).None?
    ensures MintPids(reg, owner, a + b).None?
  {
    if b == [] {
      assert a + b == a;
    } else {
      assert (a + b)[..|a + b| - 1] == a + b[..|b| - 1];
      MintPidsPrefix(reg, owner, a, b[..|b| - 1]);
    }
  }

  lemma {:induction false} RemovePidsPrefix(reg: Registry, a: seq<Pid>, b: seq<Pid>)
    requires RemovePids(reg, a).None?
    ensures RemovePids(reg, a + b).None?
  {
    if b == [] {
      assert a + b == a;
    } else {
      assert (a + b)[..|a + b| - 1] == a + b[..|b| - 1];
      RemovePidsPrefix(reg, a, b[..|b| - 1]);
    }
  }

  function StagedPids(c: Content): seq<Pid> {
    RecordPids(MintedValues(c.records)) + SlugPids(c.documents)
  }

  function RemovedPids(c: Content): seq<Pid> {
    RecordPids(Recids(c.records)) + SlugPids(NonEmpty(c.documents))
  }

  /** Everything a staged release owns. */
  ghost function Keys(c: Content): set<Pid> {
    Members(StagedPids(c))
  }

  /** Every record has an identifier, every document a slug, no two of them clash, and none is taken. */
  ghost predicate Mintable(reg: Registry, c: Content) {
    None !in MintedValues(c.records) && None !in c.documents && Distinct(StagedPids(c)) && Keys(c) !! reg.Keys
  }

  /** Staging succeeds exactly on such a content, and then registers exactly its keys for the release. */
  lemma StagingExact(reg: Registry, owner: Owner, c: Content)
    ensures MintAll(reg, owner, c) == if Mintable(reg, c) then Some(Extended(reg, owner, Keys(c))) else None
  {
    hide Extended, Distinct, MintPids, MintRecords, MintDocuments;
    var pids := RecordPids(MintedValues(c.records));
    MintRecordsList(reg, owner, c.records);
    if MintPids(reg, owner, pids).Some? {
      MintDocumentsList(reg, owner, pids, c.documents);
    } else {
      MintPidsPrefix(reg, owner, pids, SlugPids(c.documents));
    }
    MintPidsExact(reg, owner, StagedPids(c));
  }

  lemma RemovalExact(reg: Registry, c: Content)
    ensures RemoveAll(reg, c)
         == if None !in Recids(c.records) && Distinct(RemovedPids(c)) && Members(RemovedPids(c)) <= reg.Keys
            then Some(reg - Members(RemovedPids(c))) else None
  {
    hide Distinct, RemovePids, RemoveRecords, RemoveDocuments;
    var pids := RecordPids(Recids(c.records));
    RemoveRecordsList(reg, c.records);
    if RemovePids(reg, pids).Some? {
      RemoveDocumentsList(reg, pids, c.documents);
    } else {
      RemovePidsPrefix(reg, pids, SlugPids(NonEmpty(c.documents)));
    }
    RemovePidsExact(reg, RemovedPids(c));
  }

  // ---------- When rollback undoes staging ----------

  /** The recids are, together, the values registered, and no document has an empty slug. */
  ghost predicate Undoable(c: Content) {
    && None !in Recids(c.records)
    && Members(Recids(c.records)) == Members(MintedValues(c.records))
    && Some("") !in c.documents
  }

  lemma {:induction false} RecordPidsMembers(values: seq<Option<string>>)
    ensures forall p :: p in RecordPids(values) <==> (p.Recid? || p.Oai?) && Some(p.value) in values
    ensures None !in values ==> |RecordPids(values)| == 2 * |values|
  {
    if values != [] {
      var n := |values| - 1;
      RecordPidsMembers(values[..n]);
      assert values == values[..n] + [values[n]];
    }
  }

  lemma {:induction false} SlugPidsMembers(slugs: seq<Option<string>>)
    ensures forall p :: p in SlugPids(slugs) <==> p.DocId? && Some(p.value) in slugs
  {
    if slugs != [] {
      var n := |slugs| - 1;
      SlugPidsMembers(slugs[..n]);
      assert slugs == slugs[..n] + [slugs[n]];
    }
  }

  lemma {:induction false} NonEmptyMembers(slugs: seq<Option<string>>)
    ensures forall s :: s in NonEmpty(slugs) <==> s in slugs && s != Some("")
    ensures Some("") !in slugs ==> NonEmpty(slugs) == slugs
  {
    if slugs != [] {
      var n := |slugs| - 1;
      NonEmptyMembers(slugs[..n]);
      assert slugs == slugs[..n] + [slugs[n]];
    }
  }

  lemma {:induction false} ValueCounts(records: seq<Entry>)
    ensures |MintedValues(records)| == |records| == |Recids(records)|
  {
    if records != [] {
      ValueCounts(records[..|records| - 1]);
    }
  }

  lemma KeysMembers(c: Content)
    ensures forall p :: p in Keys(c) <==> InContent(p, MintedValues(c.records), c.documents)
    ensures forall p :: p in RemovedPids(c) <==> InContent(p, Recids(c.records), c.documents) && p != DocId("")
  {
    hide RecordPids, SlugPids, NonEmpty, Recids, MintedValues;
    RecordPidsMembers(MintedValues(c.records));
    RecordPidsMembers(Recids(c.records));
    SlugPidsMembers(c.documents);
    SlugPidsMembers(NonEmpty(c.documents));
    NonEmptyMembers(c.documents);
    forall p ensures p in Keys(c) <==> InContent(p, MintedValues(c.records), c.documents) {
      assert p in StagedPids(c) <==> p in RecordPids(MintedValues(c.records)) || p in SlugPids(c.documents);
    }
    forall p ensures p in RemovedPids(c) <==> InContent(p, Recids(c.records), c.documents) && p != DocId("") {
      assert p in RemovedPids(c) <==> p in RecordPids(Recids(c.records)) || p in SlugPids(NonEmpty(c.documents));
    }
  }

  predicate InContent(p: Pid, values: seq<Option<string>>, slugs: seq<Option<string>>) {
    Some(p.value) in (if p.DocId? then slugs else values)
  }

  lemma UndoableRemoves(reg: Registry, c: Content)
    requires Mintable(reg, c) && Undoable(c)
    ensures Members(RemovedPids(c)) == Keys(c) && Distinct(RemovedPids(c))
  {
    hide Distinct, RecordPids, SlugPids, NonEmpty, Recids, MintedValues;
    KeysMembers(c);
    forall p ensures p in Members(RemovedPids(c)) <==> p in Keys(c) {
      assert Some(p.value) in Recids(c.records) <==> Some(p.value) in Members(Recids(c.records));
    }
    NonEmptyMembers(c.documents);
    ValueCounts(c.records);
    RecordPidsMembers(MintedValues(c.records));
    RecordPidsMembers(Recids(c.records));
    SameMembers(RemovedPids(c), StagedPids(c));
  }

  lemma UndoneIsUndoable(reg: Registry, c: Content)
    requires Mintable(reg, c) && None !in Recids(c.records) && Members(RemovedPids(c)) == Keys(c)
    ensures Undoable(c)
  {
    hide Distinct, RecordPids, SlugPids, NonEmpty, Recids, MintedValues;
    KeysMembers(c);
    assert DocId("") !in Members(RemovedPids(c));
    assert DocId("") !in Keys(c);
    forall v | v in Recids(c.records) ensures v in MintedValues(c.records) {
      assert Recid(v.value) in Members(RemovedPids(c));
    }
    forall v | v in MintedValues(c.records) ensures v in Recids(c.records) {
      assert Recid(v.value) in Keys(c);
    }
  }

  /** A removal that takes each identifier away once and leaves none of the keys takes nothing else. */
  lemma AllRemovedIsUndoable(c: Content)
    requires Mintable(map[], c) && None !in Recids(c.records)
    requires Distinct(RemovedPids(c)) && Keys(c) <= Members(RemovedPids(c))
    ensures Undoable(c)
  {
    hide Distinct, RecordPids, SlugPids, NonEmpty, Recids, MintedValues, Undoable;
    ValueCounts(c.records);
    RecordPidsMembers(MintedValues(c.records));
    RecordPidsMembers(Recids(c.records));
    NonEmptyCount(c.documents);
    MembersBound(RemovedPids(c));
    MembersBound(StagedPids(c));
    var extra := Members(RemovedPids(c)) - Keys(c);
    assert Members(RemovedPids(c)) == Keys(c) + extra;
    assert |Members(RemovedPids(c))| == |Keys(c)| + |extra|;
    UndoneIsUndoable(map[], c);
  }

  lemma {:induction false} NonEmptyCount(slugs: seq<Option<string>>)
    ensures |SlugPids(NonEmpty(slugs))| <= |SlugPids(slugs)|
  {
    if slugs != [] {
      var last, init := slugs[|slugs| - 1], NonEmpty(slugs[..|slugs| - 1]);
      NonEmptyCount(slugs[..|slugs| - 1]);
      if last == Some("") {
        assert NonEmpty(slugs) == init + [] == init;
      } else {
        assert NonEmpty(slugs) == init + [last];
        SlugPidsAppend(init, last);
      }
    }
  }

  /** Rollback undoes a staging exactly on the undoable contents. */
  lemma RollbackUndoesStaging(reg: Registry, owner: Owner, c: Content)
    requires MintAll(reg, owner, c).Some?
    ensures RemoveAll(MintAll(reg, owner, c).value, c) == Some(reg) <==> Undoable(c)
  {
    hide Distinct, RemoveAll, MintAll, StagedPids, RemovedPids, Recids, Undoable;
    StagingExact(reg, owner, c);
    var reg1 := Extended(reg, owner, Keys(c));
    RemovalExact(reg1, c);
    if Undoable(c) {
      assert None !in Recids(c.records) by { UndoableHasRecids(c); }
      UndoableRemoves(reg, c);
      assert reg1 - Keys(c) == reg;
    }
    if RemoveAll(reg1, c) == Some(reg) {
      var removed := Members(RemovedPids(c));
      assert removed <= reg1.Keys && reg1 - removed == reg;
      forall p ensures p in removed <==> p in Keys(c) {
        assert p in reg1 - removed <==> p in reg;
      }
      UndoneIsUndoable(reg, c);
    }
  }

  lemma UndoableHasRecids(c: Content)
    requires Undoable(c)
    ensures None !in Recids(c.records)
  {
  }

  /** A record registered under an id other than its recid: the rollback takes another owner's identifiers away
      and leaves the release's own ones behind. */
  lemma RollbackCanTakeOthers()
    ensures var c := Content([Entry(Some("2"), Some("1"))], []);
            var reg := map[Recid("2") := Outside, Oai("2") := Outside];
            && MintAll(reg, Of(7), c).Some?
            && RemoveAll(MintAll(reg, Of(7), c).value, c) == Some(map[Recid("1") := Of(7), Oai("1") := Of(7)])
  {
    var c := Content([Entry(Some("2"), Some("1"))], []);
    var reg := map[Recid("2") := Outside, Oai("2") := Outside];
    assert MintRecords(reg, Of(7), c.records[..0]) == Some(reg);
    var reg1 := reg[Recid("1") := Of(7)][Oai("1") := Of(7)];
    assert MintAll(reg, Of(7), c) == Some(reg1);
    assert RemoveRecords(reg1, c.records[..0]) == Some(reg1);
    assert reg1 - {Recid("2"), Oai("2")} == map[Recid("1") := Of(7), Oai("1") := Of(7)];
  }
}
