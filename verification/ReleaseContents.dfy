/** What staging and rollback need of a content, and what they register and remove, entry by entry. */
module ReleaseContents {
  import opened Options
  import opened Sequences
  import opened ReleaseModel
  import opened ReleaseRegistry

  // ---------- Staging ----------

  /** The value that a record is registered under: its id if it has one, and its recid otherwise. */
  ghost predicate Under(e: Entry, v: string) {
    e.id == Some(v) || (e.id == None && e.recid == Some(v))
  }

  ghost predicate SameValue(e: Entry, f: Entry) {
    exists v :: Under(e, v) && Under(f, v)
  }

  /** The identifiers that staging registers. */
  ghost predicate StagedKey(c: Content, p: Pid) {
    match p
    case Recid(v) => exists e :: e in c.records && Under(e, v)
    case Oai(v) => exists e :: e in c.records && Under(e, v)
    case DocId(s) => Some(s) in c.documents
  }

  /** Every record has a value and every document a slug, no two the same, and nothing of it is in the registry. */
  ghost predicate CanStage(reg: Registry, c: Content) {
    && (forall e | e in c.records :: e.id.Some? || e.recid.Some?)
    && None !in c.documents
    && (forall i, j | 0 <= i < j < |c.records| :: !SameValue(c.records[i], c.records[j]))
    && (forall i, j | 0 <= i < j < |c.documents| :: c.documents[i] != c.documents[j])
    && (forall p | p in reg :: !StagedKey(c, p))
  }

  lemma {:induction false} ValuesAt(records: seq<Entry>)
    ensures |MintedValues(records)| == |records| == |Recids(records)|
    ensures forall i | 0 <= i < |records| :: MintedValues(records)[i] == Minted(records[i]) && Recids(records)[i] == records[i].recid
  {
    hide Minted;
    if records != [] {
      ValuesAt(records[..|records| - 1]);
    }
  }

  lemma DistinctTwo<T>(s: seq<T>, x: T, y: T)
    ensures Distinct(s + [x, y]) <==> Distinct(s) && x !in s && y !in s && x != y
  {
    assert s + [x, y] == (s + [x]) + [y];
    DistinctAppend(s, x);
    DistinctAppend(s + [x], y);
  }

  lemma {:induction false} RecordPidsDistinct(values: seq<Option<string>>)
    requires None !in values
    ensures Distinct(RecordPids(values)) <==> Distinct(values)
  {
    hide Distinct;
    if values == [] {
      assert Distinct(RecordPids(values)) && Distinct(values) by { NothingRepeats(); }
    } else {
      var n := |values| - 1;
      var last := values[n];
      RecordPidsDistinct(values[..n]);
      RecordPidsMembers(values[..n]);
      DistinctTwo(RecordPids(values[..n]), Recid(last.value), Oai(last.value));
      DistinctAppend(values[..n], last);
      assert values == values[..n] + [last];
    }
  }

  lemma NothingRepeats()
    ensures Distinct(RecordPids([])) && Distinct(SlugPids([])) && Distinct<Option<string>>([])
  {
  }

  lemma {:induction false} SlugPidsDistinct(slugs: seq<Option<string>>)
    requires None !in slugs
    ensures Distinct(SlugPids(slugs)) <==> Distinct(slugs)
  {
    hide Distinct;
    if slugs == [] {
      assert Distinct(SlugPids(slugs)) && Distinct(slugs) by { NothingRepeats(); }
    } else {
      var n := |slugs| - 1;
      var last := slugs[n];
      SlugPidsDistinct(slugs[..n]);
      SlugPidsMembers(slugs[..n]);
      DistinctAppend(SlugPids(slugs[..n]), DocId(last.value));
      DistinctAppend(slugs[..n], last);
      assert slugs == slugs[..n] + [last];
    }
  }

  lemma DistinctJoin<T>(a: seq<T>, b: seq<T>)
    requires forall x | x in a :: x !in b
    ensures Distinct(a + b) <==> Distinct(a) && Distinct(b)
  {
    var t := a + b;
    if Distinct(t) {
      assert forall i | 0 <= i < |a| :: t[i] == a[i];
      assert forall i | 0 <= i < |b| :: t[|a| + i] == b[i];
    }
    if Distinct(a) && Distinct(b) {
      forall i, j | 0 <= i < j < |t| ensures t[i] != t[j] {
        assert i < |a| && j >= |a| ==> t[i] in a && t[j] in b;
      }
    }
  }

  lemma PidsDistinct(values: seq<Option<string>>, slugs: seq<Option<string>>)
    requires None !in values && None !in slugs
    ensures Distinct(RecordPids(values) + SlugPids(slugs)) <==> Distinct(values) && Distinct(slugs)
  {
    hide Distinct, RecordPids, SlugPids;
    RecordPidsDistinct(values);
    SlugPidsDistinct(slugs);
    RecordPidsMembers(values);
    SlugPidsMembers(slugs);
    DistinctJoin(RecordPids(values), SlugPids(slugs));
  }

  lemma UnderExact(e: Entry, v: string)
    ensures Under(e, v) <==> Minted(e) == Some(v)
  {
  }

  lemma ValueHas(records: seq<Entry>, v: string)
    ensures Some(v) in MintedValues(records) <==> exists e :: e in records && Under(e, v)
    ensures Some(v) in Recids(records) <==> exists e :: e in records && e.recid == Some(v)
  {
    ValuesAt(records);
    hide Minted, Under;
    forall e ensures Under(e, v) <==> Minted(e) == Some(v) {
      UnderExact(e, v);
    }
    if Some(v) in MintedValues(records) {
      var i :| 0 <= i < |records| && MintedValues(records)[i] == Some(v);
      assert records[i] in records;
    }
    if Some(v) in Recids(records) {
      var i :| 0 <= i < |records| && Recids(records)[i] == Some(v);
      assert records[i] in records;
    }
    if e :| e in records && Under(e, v) {
      var i :| 0 <= i < |records| && records[i] == e;
      assert MintedValues(records)[i] == Some(v);
    }
    if e :| e in records && e.recid == Some(v) {
      var i :| 0 <= i < |records| && records[i] == e;
      assert Recids(records)[i] == Some(v);
    }
  }

  lemma StagedKeyExact(c: Content, p: Pid)
    ensures p in Keys(c) <==> StagedKey(c, p)
  {
    hide Keys, MintedValues, Under;
    KeysMembers(c);
    ValueHas(c.records, p.value);
  }

  lemma ValuesPresent(records: seq<Entry>)
    ensures None !in MintedValues(records) <==> forall e | e in records :: e.id.Some? || e.recid.Some?
    ensures None !in Recids(records) <==> forall e | e in records :: e.recid.Some?
  {
    ValuesAt(records);
    var values, recids := MintedValues(records), Recids(records);
    if None !in values {
      forall e | e in records ensures e.id.Some? || e.recid.Some? {
        var i :| 0 <= i < |records| && records[i] == e;
        assert values[i] in values;
      }
    }
    if None !in recids {
      forall e | e in records ensures e.recid.Some? {
        var i :| 0 <= i < |records| && records[i] == e;
        assert recids[i] in recids;
      }
    }
    assert forall i | 0 <= i < |records| :: records[i] in records;
  }

  lemma SameValueExact(e: Entry, f: Entry)
    requires Minted(e).Some?
    ensures SameValue(e, f) <==> Minted(e) == Minted(f)
  {
    UnderExact(e, Minted(e).value);
    UnderExact(f, Minted(e).value);
    if v :| Under(e, v) && Under(f, v) {
      UnderExact(e, v);
      UnderExact(f, v);
    }
  }

  lemma ValuesDiffer(records: seq<Entry>)
    requires None !in MintedValues(records)
    ensures Distinct(MintedValues(records)) <==> forall i, j | 0 <= i < j < |records| :: !SameValue(records[i], records[j])
  {
    ValuesAt(records);
    var values := MintedValues(records);
    hide Minted, SameValue;
    forall i, j | 0 <= i < j < |records| ensures SameValue(records[i], records[j]) <==> values[i] == values[j] {
      assert values[i] in values;
      SameValueExact(records[i], records[j]);
    }
  }

  /** Staging goes through exactly on such a content. */
  lemma MintableExact(reg: Registry, c: Content)
    ensures Mintable(reg, c) <==> CanStage(reg, c)
  {
    forall p ensures p in Keys(c) <==> StagedKey(c, p) {
      StagedKeyExact(c, p);
    }
    ValuesPresent(c.records);
    if None !in MintedValues(c.records) && None !in c.documents {
      PidsDistinct(MintedValues(c.records), c.documents);
      ValuesDiffer(c.records);
    }
    hide Keys, StagedKey, RecordPids, SlugPids, MintedValues, SameValue;
  }

  // ---------- Rollback ----------

  /** The identifiers that rollback removes: the records by their recids, the documents by their slugs but for the empty one. */
  ghost predicate RemovedKey(c: Content, p: Pid) {
    match p
    case Recid(v) => exists e :: e in c.records && e.recid == Some(v)
    case Oai(v) => exists e :: e in c.records && e.recid == Some(v)
    case DocId(s) => s != "" && Some(s) in c.documents
  }

  /** No nonempty slug is there twice. */
  ghost predicate SlugsDiffer(slugs: seq<Option<string>>) {
    forall i, j | 0 <= i < j < |slugs| && slugs[i].Some? && slugs[i] != Some("") :: slugs[i] != slugs[j]
  }

  /** Every record has a recid, no two the same, no two documents the same nonempty slug (or none), and everything is in the
      registry. */
  ghost predicate CanTakeBack(reg: Registry, c: Content) {
    && (forall e | e in c.records :: e.recid.Some?)
    && (forall i, j | 0 <= i < j < |c.records| :: c.records[i].recid != c.records[j].recid)
    && SlugsDiffer(c.documents)
    && (forall p | RemovedKey(c, p) :: p in reg)
  }

  lemma RemovedKeyExact(c: Content, p: Pid)
    ensures p in Members(RemovedPids(c)) <==> RemovedKey(c, p)
  {
    hide RemovedPids, Recids;
    KeysMembers(c);
    ValueHas(c.records, p.value);
  }

  /** The slugs that count for the removal. */
  function Slugs(slugs: seq<Option<string>>): seq<Option<string>> {
    if slugs == [] then []
    else Slugs(slugs[..|slugs| - 1]) + if slugs[|slugs| - 1] in {None, Some("")} then [] else [slugs[|slugs| - 1]]
  }

  lemma {:induction false} SlugsSamePids(slugs: seq<Option<string>>)
    ensures SlugPids(NonEmpty(slugs)) == SlugPids(Slugs(slugs)) && None !in Slugs(slugs)
    ensures forall s :: s in Slugs(slugs) <==> s in slugs && s != None && s != Some("")
  {
    if slugs != [] {
      var n := |slugs| - 1;
      var last := slugs[n];
      SlugsSamePids(slugs[..n]);
      assert slugs == slugs[..n] + [last];
      if last == Some("") {
        assert NonEmpty(slugs) == NonEmpty(slugs[..n]) + [] == NonEmpty(slugs[..n]);
        assert Slugs(slugs) == Slugs(slugs[..n]) + [] == Slugs(slugs[..n]);
      } else {
        assert NonEmpty(slugs) == NonEmpty(slugs[..n]) + [last];
        SlugPidsAppend(NonEmpty(slugs[..n]), last);
        if last == None {
          assert Slugs(slugs) == Slugs(slugs[..n]) + [] == Slugs(slugs[..n]);
        } else {
          assert Slugs(slugs) == Slugs(slugs[..n]) + [last];
          SlugPidsAppend(Slugs(slugs[..n]), last);
        }
      }
    }
  }

  lemma SlugsDifferAppend(init: seq<Option<string>>, last: Option<string>)
    ensures SlugsDiffer(init + [last]) <==> SlugsDiffer(init) && (last == None || last == Some("") || last !in init)
  {
    var slugs := init + [last];
    assert forall i | 0 <= i < |init| :: slugs[i] == init[i];
    assert SlugsDiffer(slugs) ==> forall i | 0 <= i < |init| && slugs[i].Some? && slugs[i] != Some("") :: slugs[i] != slugs[|init|];
  }

  lemma SlugsNext(init: seq<Option<string>>, last: Option<string>)
    ensures Slugs(init + [last]) == if last == None || last == Some("") then Slugs(init) else Slugs(init) + [last]
  {
    var slugs := init + [last];
    assert slugs[..|slugs| - 1] == init;
    assert Slugs(init) + [] == Slugs(init);
  }

  lemma {:induction false} SlugsDistinct(slugs: seq<Option<string>>)
    ensures Distinct(Slugs(slugs)) <==> SlugsDiffer(slugs)
  {
    if slugs == [] {
      assert Slugs(slugs) == [];
    } else {
      hide Distinct, SlugsDiffer, Slugs;
      var n := |slugs| - 1;
      var init, last := slugs[..n], slugs[n];
      assert slugs == init + [last];
      SlugsDistinct(init);
      SlugsSamePids(init);
      SlugsDifferAppend(init, last);
      SlugsNext(init, last);
      DistinctAppend(Slugs(init), last);
    }
  }

  lemma RecidsDiffer(records: seq<Entry>)
    ensures Distinct(Recids(records)) <==> forall i, j | 0 <= i < j < |records| :: records[i].recid != records[j].recid
  {
    ValuesAt(records);
  }

  /** Rollback goes through exactly on such a content. */
  lemma RemovableExact(reg: Registry, c: Content)
    ensures None !in Recids(c.records) && Distinct(RemovedPids(c)) && Members(RemovedPids(c)) <= reg.Keys <==> CanTakeBack(reg, c)
  {
    forall p ensures p in Members(RemovedPids(c)) <==> RemovedKey(c, p) {
      RemovedKeyExact(c, p);
    }
    ValuesPresent(c.records);
    SlugsSamePids(c.documents);
    SlugsDistinct(c.documents);
    RecidsDiffer(c.records);
    if None !in Recids(c.records) {
      PidsDistinct(Recids(c.records), Slugs(c.documents));
    }
    hide Distinct, Members, RemovedKey, RecordPids, SlugPids, Recids, Slugs, NonEmpty, SlugsDiffer;
  }
}
