/** The nightly reconciliation of a storage dump with two search indexes: mapped files and dark files. */
module EosDump {
  import opened Arithmetic
  import opened Options

  datatype Entry = Entry(path: string, size: int, checksum: Option<string>, mtime: int, atime: int)

  /** What the database knows about a file, by its full URL. */
  datatype Info = Info(title: Option<string>, recid: Option<string>, published: Option<string>)

  type Known = map<string, Info>

  /** The documents of the indexes; both kinds carry the last access. Times are written by a clock function. */
  datatype Document =
    | Mapped(info: Info, lastAccessed: string)
    | Dark(size: int, checksum: Option<string>, lastModified: string, lastAccessed: string)

  type Clock = int -> string

  type Index = map<string, Document>

  /** The two indexes; a document is identified by the path of its file. */
  datatype Indexes = Indexes(mapped: Index, dark: Index)

  const PREFIX := "root://eospublic.cern.ch/"
  const IGNORED_PATH := "/upload/"

  function FromDatabase(clock: Clock, e: Entry, info: Info): Document {
    Mapped(info, clock(e.atime))
  }

  function DarkFile(clock: Clock, e: Entry): Document {
    Dark(e.size, e.checksum, clock(e.mtime), clock(e.atime))
  }

  // ---------- One entry at a time ----------

  function Reconciled(w: Indexes, known: Known, clock: Clock, e: Entry): Indexes {
    var p := e.path;
    if p in w.mapped then w.(mapped := w.mapped[p := w.mapped[p].(lastAccessed := clock(e.atime))])
    else if PREFIX + p in known then
      Indexes(w.mapped[p := FromDatabase(clock, e, known[PREFIX + p])], w.dark - {p})
    else if p in w.dark then w.(dark := w.dark[p := w.dark[p].(lastAccessed := clock(e.atime))])
    else w.(dark := w.dark[p := DarkFile(clock, e)])
  }

  function ReconciledAll(w: Indexes, known: Known, clock: Clock, entries: seq<Entry>): Indexes {
    if entries == [] then w
    else
      var n := |entries| - 1;
      Reconciled(ReconciledAll(w, known, clock, entries[..n]), known, clock, entries[n])
  }

  // ---------- A batch ----------

  /** The entries that are mapped with another access time. */
  function MappedUpdates(w: Indexes, clock: Clock, entries: seq<Entry>): seq<Entry> {
    if entries == [] then []
    else
      var n := |entries| - 1;
      var e := entries[n];
      MappedUpdates(w, clock, entries[..n])
      + if e.path in w.mapped && w.mapped[e.path].lastAccessed != clock(e.atime) then [e] else []
  }

  function Unmapped(w: Indexes, entries: seq<Entry>): seq<Entry> {
    if entries == [] then []
    else
      var n := |entries| - 1;
      Unmapped(w, entries[..n]) + if entries[n].path in w.mapped then [] else [entries[n]]
  }

  /** A dictionary by path: a repeated path keeps its place and takes the new entry. */
  function DictPut(dict: seq<Entry>, e: Entry): seq<Entry> {
    if dict == [] then [e]
    else if dict[0].path == e.path then [e] + dict[1..]
    else [dict[0]] + DictPut(dict[1..], e)
  }

  function Dict(entries: seq<Entry>): seq<Entry> {
    if entries == [] then [] else DictPut(Dict(entries[..|entries| - 1]), entries[|entries| - 1])
  }

  /** The update by query: the documents of these paths take the access times of the entries. */
  function Touched(index: Index, clock: Clock, entries: seq<Entry>): Index {
    if entries == [] then index
    else
      var n := |entries| - 1;
      var before, e := Touched(index, clock, entries[..n]), entries[n];
      if e.path in before then before[e.path := before[e.path].(lastAccessed := clock(e.atime))] else before
  }

  datatype Action = PutMapped(path: string, doc: Document) | PutDark(path: string, doc: Document) | DeleteDark(path: string)

  function ActionsFor(dark: Index, known: Known, clock: Clock, e: Entry): seq<Action> {
    if PREFIX + e.path in known then
      [PutMapped(e.path, FromDatabase(clock, e, known[PREFIX + e.path]))]
      + if e.path in dark then [DeleteDark(e.path)] else []
    else if e.path in dark then []
    else [PutDark(e.path, DarkFile(clock, e))]
  }

  function Actions(dark: Index, known: Known, clock: Clock, entries: seq<Entry>): seq<Action> {
    if entries == [] then []
    else
      var n := |entries| - 1;
      Actions(dark, known, clock, entries[..n]) + ActionsFor(dark, known, clock, entries[n])
  }

  /** The entries that are dark, not known, and have another access time. */
  function DarkUpdates(dark: Index, known: Known, clock: Clock, entries: seq<Entry>): seq<Entry> {
    if entries == [] then []
    else
      var n := |entries| - 1;
      var e := entries[n];
      DarkUpdates(dark, known, clock, entries[..n])
      + if PREFIX + e.path !in known && e.path in dark && dark[e.path].lastAccessed != clock(e.atime) then [e] else []
  }

  function Applied(w: Indexes, a: Action): Indexes {
    match a
    case PutMapped(p, doc) => w.(mapped := w.mapped[p := doc])
    case PutDark(p, doc) => w.(dark := w.dark[p := doc])
    case DeleteDark(p) => w.(dark := w.dark - {p})
  }

  function Bulk(w: Indexes, actions: seq<Action>): Indexes {
    if actions == [] then w else Applied(Bulk(w, actions[..|actions| - 1]), actions[|actions| - 1])
  }

  /** A batch: decisions are taken on the indexes as they were at the start. */
  function BatchProcessed(w: Indexes, known: Known, clock: Clock, batch: seq<Entry>): Indexes {
    var w1 := w.(mapped := Touched(w.mapped, clock, MappedUpdates(w, clock, batch)));
    var entries := Dict(Unmapped(w, batch));
    var w2 := w1.(dark := Touched(w1.dark, clock, DarkUpdates(w.dark, known, clock, entries)));
    Bulk(w2, Actions(w.dark, known, clock, entries))
  }

  // ---------- The whole dump ----------

  predicate Contains(s: string, part: string) {
    part <= s || (s != "" && Contains(s[1..], part))
  }

  /** The entries to process; a line that cannot be decoded is None. */
  function Kept(lines: seq<Option<Entry>>): seq<Entry> {
    if lines == [] then []
    else
      var line := lines[|lines| - 1];
      Kept(lines[..|lines| - 1]) + if line.Some? && !Contains(line.value.path, IGNORED_PATH) then [line.value] else []
  }

  function Batches(w: Indexes, known: Known, clock: Clock, entries: seq<Entry>, size: nat): Indexes
    requires size >= 1
    decreases |entries|
  {
    if entries == [] then w
    else
      var n := if size < |entries| then size else |entries|;
      Batches(BatchProcessed(w, known, clock, entries[..n]), known, clock, entries[n..], size)
  }

  function DumpProcessed(w: Indexes, known: Known, clock: Clock, lines: seq<Option<Entry>>, size: nat): Indexes
    requires size >= 1
  {
    Batches(w, known, clock, Kept(lines), size)
  }

  // ---------- What happens at one path ----------

  /** The documents at one path of the two indexes. */
  datatype Place = Place(mapped: Option<Document>, dark: Option<Document>)

  function Find(index: Index, p: string): Option<Document> {
    if p in index then Some(index[p]) else None
  }

  function At(w: Indexes, p: string): Place {
    Place(Find(w.mapped, p), Find(w.dark, p))
  }

  /** The effect of an entry on the documents at its path. */
  function Effect(place: Place, known: Known, clock: Clock, e: Entry): Place {
    if place.mapped.Some? then place.(mapped := Some(place.mapped.value.(lastAccessed := clock(e.atime))))
    else if PREFIX + e.path in known then Place(Some(FromDatabase(clock, e, known[PREFIX + e.path])), None)
    else if place.dark.Some? then place.(dark := Some(place.dark.value.(lastAccessed := clock(e.atime))))
    else place.(dark := Some(DarkFile(clock, e)))
  }

  lemma SameEverywhere(a: Indexes, b: Indexes)
    requires forall p :: At(a, p) == At(b, p)
    ensures a == b
  {
    forall p ensures p in a.mapped <==> p in b.mapped {
      assert At(a, p) == At(b, p);
    }
    forall p ensures p in a.dark <==> p in b.dark {
      assert At(a, p) == At(b, p);
    }
    forall p | p in a.mapped ensures a.mapped[p] == b.mapped[p] {
      assert At(a, p) == At(b, p);
    }
    forall p | p in a.dark ensures a.dark[p] == b.dark[p] {
      assert At(a, p) == At(b, p);
    }
    assert a.mapped == b.mapped && a.dark == b.dark;
  }

  ghost predicate DistinctPaths(entries: seq<Entry>) {
    forall i, j | 0 <= i < j < |entries| :: entries[i].path != entries[j].path
  }

  /** No entry has that path. */
  ghost predicate Lacks(entries: seq<Entry>, p: string) {
    forall e | e in entries :: e.path != p
  }

  /** The result of processing entries, seen at one path: the effect of the entry with that path, if there is one. */
  ghost predicate EffectAt(w: Indexes, w': Indexes, known: Known, clock: Clock, entries: seq<Entry>, p: string) {
    && (Lacks(entries, p) ==> At(w', p) == At(w, p))
    && (forall e | e in entries && e.path == p :: At(w', p) == Effect(At(w, p), known, clock, e))
  }

  lemma ReconciledHere(w: Indexes, known: Known, clock: Clock, e: Entry, p: string)
    ensures At(Reconciled(w, known, clock, e), p) == if p == e.path then Effect(At(w, p), known, clock, e) else At(w, p)
  {
    hide FromDatabase, DarkFile;
  }

  lemma DistinctLast(entries: seq<Entry>)
    requires entries != [] && DistinctPaths(entries)
    ensures var n := |entries| - 1;
            && DistinctPaths(entries[..n]) && Lacks(entries[..n], entries[n].path)
            && forall e :: e in entries <==> e in entries[..n] || e == entries[n]
  {
    assert entries == entries[..|entries| - 1] + [entries[|entries| - 1]];
  }

  lemma {:induction false} ReconciledAt(w: Indexes, known: Known, clock: Clock, entries: seq<Entry>, p: string)
    requires DistinctPaths(entries)
    ensures EffectAt(w, ReconciledAll(w, known, clock, entries), known, clock, entries, p)
  {
    hide Reconciled, Effect, At, DistinctPaths;
    if entries != [] {
      var n := |entries| - 1;
      DistinctLast(entries);
      ReconciledAt(w, known, clock, entries[..n], p);
      ReconciledHere(ReconciledAll(w, known, clock, entries[..n]), known, clock, entries[n], p);
    }
  }

  // ---------- A batch, seen at one path ----------

  lemma {:induction false} TouchedAt(index: Index, clock: Clock, entries: seq<Entry>, p: string)
    requires DistinctPaths(entries)
    ensures Lacks(entries, p) || p !in index ==> Find(Touched(index, clock, entries), p) == Find(index, p)
    ensures forall e | e in entries && e.path == p && p in index ::
              Find(Touched(index, clock, entries), p) == Some(index[p].(lastAccessed := clock(e.atime)))
  {
    hide DistinctPaths;
    if entries != [] {
      var n := |entries| - 1;
      DistinctLast(entries);
      TouchedAt(index, clock, entries[..n], p);
    }
  }

  lemma {:induction false} MappedUpdatesExact(w: Indexes, clock: Clock, entries: seq<Entry>)
    requires DistinctPaths(entries)
    ensures var updates := MappedUpdates(w, clock, entries);
            && DistinctPaths(updates)
            && forall e :: e in updates <==> e in entries && e.path in w.mapped && w.mapped[e.path].lastAccessed != clock(e.atime)
  {
    if entries != [] {
      var n := |entries| - 1;
      DistinctLast(entries);
      MappedUpdatesExact(w, clock, entries[..n]);
    }
  }

  lemma {:induction false} UnmappedExact(w: Indexes, entries: seq<Entry>)
    requires DistinctPaths(entries)
    ensures var rest := Unmapped(w, entries);
            DistinctPaths(rest) && forall e :: e in rest <==> e in entries && e.path !in w.mapped
  {
    if entries != [] {
      var n := |entries| - 1;
      DistinctLast(entries);
      UnmappedExact(w, entries[..n]);
    }
  }

  lemma {:induction false} DarkUpdatesExact(w: Indexes, known: Known, clock: Clock, entries: seq<Entry>)
    requires DistinctPaths(entries)
    ensures var updates := DarkUpdates(w.dark, known, clock, entries);
            && DistinctPaths(updates)
            && forall e :: e in updates <==> e in entries && PREFIX + e.path !in known && e.path in w.dark
                                             && w.dark[e.path].lastAccessed != clock(e.atime)
  {
    if entries != [] {
      var n := |entries| - 1;
      DistinctLast(entries);
      DarkUpdatesExact(w, known, clock, entries[..n]);
    }
  }

  lemma {:induction false} DictPutNew(dict: seq<Entry>, e: Entry)
    requires Lacks(dict, e.path)
    ensures DictPut(dict, e) == dict + [e]
  {
    if dict != [] {
      assert dict[0] in dict;
      assert forall x | x in dict[1..] :: x in dict;
      DictPutNew(dict[1..], e);
      assert dict == [dict[0]] + dict[1..];
    }
  }

  /** The dictionary of entries with distinct paths is the list itself. */
  lemma {:induction false} DictOfDistinct(entries: seq<Entry>)
    requires DistinctPaths(entries)
    ensures Dict(entries) == entries
  {
    if entries != [] {
      var n := |entries| - 1;
      DistinctLast(entries);
      DictOfDistinct(entries[..n]);
      DictPutNew(entries[..n], entries[n]);
      assert entries == entries[..n] + [entries[n]];
    }
  }

  lemma {:induction false} BulkAppend(w: Indexes, a: seq<Action>, b: seq<Action>)
    ensures Bulk(w, a + b) == Bulk(Bulk(w, a), b)
  {
    if b == [] {
      assert a + b == a;
    } else {
      assert (a + b)[..|a + b| - 1] == a + b[..|b| - 1];
      BulkAppend(w, a, b[..|b| - 1]);
    }
  }

  /** What the actions of an entry leave at a path. */
  function ActionEffect(place: Place, was: Option<Document>, known: Known, clock: Clock, e: Entry): Place {
    if PREFIX + e.path in known then Place(Some(FromDatabase(clock, e, known[PREFIX + e.path])), if was.Some? then None else place.dark)
    else if was.Some? then place
    else place.(dark := Some(DarkFile(clock, e)))
  }

  lemma ActionsHere(w: Indexes, was: Index, known: Known, clock: Clock, e: Entry, p: string)
    ensures At(Bulk(w, ActionsFor(was, known, clock, e)), p)
         == if p == e.path then ActionEffect(At(w, p), Find(was, p), known, clock, e) else At(w, p)
  {
    hide FromDatabase, DarkFile;
    var actions := ActionsFor(was, known, clock, e);
    if |actions| == 2 {
      assert actions[..1] == [actions[0]];
      assert Bulk(w, actions) == Applied(Bulk(w, [actions[0]]), actions[1]);
    }
    assert |actions| >= 1 ==> [actions[0]][..0] == [];
  }

  lemma {:induction false} BulkAt(w: Indexes, was: Index, known: Known, clock: Clock, entries: seq<Entry>, p: string)
    requires DistinctPaths(entries)
    ensures var w' := Bulk(w, Actions(was, known, clock, entries));
            && (Lacks(entries, p) ==> At(w', p) == At(w, p))
            && (forall e | e in entries && e.path == p :: At(w', p) == ActionEffect(At(w, p), Find(was, p), known, clock, e))
  {
    hide ActionsFor, ActionEffect, At, DistinctPaths;
    if entries != [] {
      var n := |entries| - 1;
      DistinctLast(entries);
      BulkAt(w, was, known, clock, entries[..n], p);
      var init := Actions(was, known, clock, entries[..n]);
      BulkAppend(w, init, ActionsFor(was, known, clock, entries[n]));
      ActionsHere(Bulk(w, init), was, known, clock, entries[n], p);
    }
  }

  /** A batch has, at every path, the effect of the entry with that path. */
  lemma BatchAt(w: Indexes, known: Known, clock: Clock, batch: seq<Entry>, p: string)
    requires DistinctPaths(batch)
    ensures EffectAt(w, BatchProcessed(w, known, clock, batch), known, clock, batch, p)
  {
    hide Touched, Bulk, Actions, MappedUpdates, DarkUpdates, Unmapped, Dict, DistinctPaths, FromDatabase, DarkFile;
    var updates, rest := MappedUpdates(w, clock, batch), Unmapped(w, batch);
    MappedUpdatesExact(w, clock, batch);
    UnmappedExact(w, batch);
    DictOfDistinct(rest);
    var darkUpdates := DarkUpdates(w.dark, known, clock, rest);
    DarkUpdatesExact(w, known, clock, rest);
    TouchedAt(w.mapped, clock, updates, p);
    TouchedAt(w.dark, clock, darkUpdates, p);
    var w2 := Indexes(Touched(w.mapped, clock, updates), Touched(w.dark, clock, darkUpdates));
    BulkAt(w2, w.dark, known, clock, rest, p);
    forall e | e in batch && e.path == p
      ensures At(BatchProcessed(w, known, clock, batch), p) == Effect(At(w, p), known, clock, e) {
      forall u | u in batch && u.path == p ensures u == e {
        UniqueEntry(batch, e, u);
      }
      if p in w.mapped {
        assert Lacks(rest, p);
        assert e !in updates ==> Lacks(updates, p);
      } else if PREFIX + p !in known && p in w.dark {
        assert e !in darkUpdates ==> Lacks(darkUpdates, p);
      }
    }
  }

  lemma UniqueEntry(entries: seq<Entry>, a: Entry, b: Entry)
    requires DistinctPaths(entries) && a in entries && b in entries && a.path == b.path
    ensures a == b
  {
  }

  /** A batch refines the simple algorithm. */
  lemma BatchRefines(w: Indexes, known: Known, clock: Clock, batch: seq<Entry>)
    requires DistinctPaths(batch)
    ensures BatchProcessed(w, known, clock, batch) == ReconciledAll(w, known, clock, batch)
  {
    hide BatchProcessed, ReconciledAll, At, Effect;
    var a, b := BatchProcessed(w, known, clock, batch), ReconciledAll(w, known, clock, batch);
    forall p ensures At(a, p) == At(b, p) {
      BatchAt(w, known, clock, batch, p);
      ReconciledAt(w, known, clock, batch, p);
    }
    SameEverywhere(a, b);
  }

  // ---------- The whole dump ----------

  lemma {:induction false} ReconciledAppend(w: Indexes, known: Known, clock: Clock, a: seq<Entry>, b: seq<Entry>)
    ensures ReconciledAll(w, known, clock, a + b) == ReconciledAll(ReconciledAll(w, known, clock, a), known, clock, b)
  {
    hide Reconciled;
    if b == [] {
      assert a + b == a;
    } else {
      assert (a + b)[..|a + b| - 1] == a + b[..|b| - 1];
      ReconciledAppend(w, known, clock, a, b[..|b| - 1]);
    }
  }

  lemma {:induction false} BatchesRefine(w: Indexes, known: Known, clock: Clock, entries: seq<Entry>, size: nat)
    requires size >= 1 && DistinctPaths(entries)
    ensures Batches(w, known, clock, entries, size) == ReconciledAll(w, known, clock, entries)
    decreases |entries|
  {
    hide BatchProcessed, Reconciled;
    if entries != [] {
      var n := if size < |entries| then size else |entries|;
      BatchRefines(w, known, clock, entries[..n]);
      BatchesRefine(BatchProcessed(w, known, clock, entries[..n]), known, clock, entries[n..], size);
      assert entries == entries[..n] + entries[n..];
      ReconciledAppend(w, known, clock, entries[..n], entries[n..]);
    }
  }

  /** Batching refines the simple algorithm: for a dump without repeated paths and for any batch size, the indexes end
      as if the entries had been reconciled one at a time. */
  lemma DumpRefines(w: Indexes, known: Known, clock: Clock, lines: seq<Option<Entry>>, size: nat)
    requires size >= 1 && DistinctPaths(Kept(lines))
    ensures DumpProcessed(w, known, clock, lines, size) == ReconciledAll(w, known, clock, Kept(lines))
  {
    BatchesRefine(w, known, clock, Kept(lines), size);
  }

  ghost predicate Disjoint(w: Indexes) {
    w.mapped.Keys !! w.dark.Keys
  }

  /** The indexes stay disjoint; every entry that is not ignored ends in exactly one of them, with the access time of
      the dump, and it is the mapped one exactly if it was mapped before or the database knows the file; no other
      document changes. */
  lemma DumpPlacesEveryEntry(w: Indexes, known: Known, clock: Clock, lines: seq<Option<Entry>>, size: nat)
    requires size >= 1 && DistinctPaths(Kept(lines)) && Disjoint(w)
    ensures var w' := DumpProcessed(w, known, clock, lines, size);
            && Disjoint(w')
            && (forall e | e in Kept(lines) ::
                  if e.path in w.mapped || PREFIX + e.path in known
                  then e.path in w'.mapped && e.path !in w'.dark && w'.mapped[e.path].lastAccessed == clock(e.atime)
                  else e.path in w'.dark && e.path !in w'.mapped && w'.dark[e.path].lastAccessed == clock(e.atime))
            && (forall p | Lacks(Kept(lines), p) :: At(w', p) == At(w, p))
  {
    hide DumpProcessed, ReconciledAll, Kept, DistinctPaths, FromDatabase, DarkFile;
    var w', entries := DumpProcessed(w, known, clock, lines, size), Kept(lines);
    DumpRefines(w, known, clock, lines, size);
    forall p ensures EffectAt(w, w', known, clock, entries, p) {
      ReconciledAt(w, known, clock, entries, p);
    }
    forall p ensures p !in w'.mapped || p !in w'.dark {
      NotBoth(w, w', known, clock, entries, p);
    }
    forall p | Lacks(entries, p) ensures At(w', p) == At(w, p) {
      assert EffectAt(w, w', known, clock, entries, p);
    }
    forall e | e in entries
      ensures if e.path in w.mapped || PREFIX + e.path in known
              then e.path in w'.mapped && e.path !in w'.dark && w'.mapped[e.path].lastAccessed == clock(e.atime)
              else e.path in w'.dark && e.path !in w'.mapped && w'.dark[e.path].lastAccessed == clock(e.atime) {
      assert EffectAt(w, w', known, clock, entries, e.path);
      PlacedOnce(w, w', known, clock, entries, e);
    }
  }

  lemma NotBoth(w: Indexes, w': Indexes, known: Known, clock: Clock, entries: seq<Entry>, p: string)
    requires Disjoint(w) && EffectAt(w, w', known, clock, entries, p)
    ensures !(p in w'.mapped && p in w'.dark)
  {
    hide FromDatabase, DarkFile;
    if e :| e in entries && e.path == p {
      assert At(w', p) == Effect(At(w, p), known, clock, e);
    }
  }

  lemma PlacedOnce(w: Indexes, w': Indexes, known: Known, clock: Clock, entries: seq<Entry>, e: Entry)
    requires Disjoint(w) && e in entries && EffectAt(w, w', known, clock, entries, e.path)
    ensures if e.path in w.mapped || PREFIX + e.path in known
            then e.path in w'.mapped && e.path !in w'.dark && w'.mapped[e.path].lastAccessed == clock(e.atime)
            else e.path in w'.dark && e.path !in w'.mapped && w'.dark[e.path].lastAccessed == clock(e.atime)
  {
    assert At(w', e.path) == Effect(At(w, e.path), known, clock, e);
  }

  /** A second run over the same dump and database changes nothing. */
  lemma RerunChangesNothing(w: Indexes, known: Known, clock: Clock, lines: seq<Option<Entry>>, size: nat, size': nat)
    requires size >= 1 && size' >= 1 && DistinctPaths(Kept(lines))
    ensures var w' := DumpProcessed(w, known, clock, lines, size);
            DumpProcessed(w', known, clock, lines, size') == w'
  {
    hide DumpProcessed, ReconciledAll, Kept, DistinctPaths, At, Effect;
    var entries := Kept(lines);
    var w' := DumpProcessed(w, known, clock, lines, size);
    var w2 := DumpProcessed(w', known, clock, lines, size');
    DumpRefines(w, known, clock, lines, size);
    DumpRefines(w', known, clock, lines, size');
    forall p ensures At(w2, p) == At(w', p) {
      ReconciledAt(w, known, clock, entries, p);
      ReconciledAt(w', known, clock, entries, p);
      if e :| e in entries && e.path == p {
        EffectTwice(At(w, p), known, clock, e);
      }
    }
    SameEverywhere(w2, w');
  }

  lemma EffectTwice(place: Place, known: Known, clock: Clock, e: Entry)
    ensures var once := Effect(place, known, clock, e); Effect(once, known, clock, e) == once
  {
  }

  // ---------- Which entries are kept ----------

  lemma {:induction false} ContainsExact(s: string, part: string)
    ensures Contains(s, part) <==> exists i :: 0 <= i <= |s| && part <= s[i..]
  {
    assert s[0..] == s;
    if s != "" {
      ContainsExact(s[1..], part);
      if i :| 0 <= i <= |s[1..]| && part <= s[1..][i..] {
        assert s[1..][i..] == s[i + 1..];
      }
      if i :| 0 < i <= |s| && part <= s[i..] {
        assert s[1..][i - 1..] == s[i..];
      }
    }
  }

  lemma {:induction false} KeptExact(lines: seq<Option<Entry>>)
    ensures forall e :: e in Kept(lines) <==> Some(e) in lines && !Contains(e.path, IGNORED_PATH)
  {
    hide Contains;
    if lines != [] {
      KeptExact(lines[..|lines| - 1]);
      assert lines == lines[..|lines| - 1] + [lines[|lines| - 1]];
    }
  }

  /** The entry is the one at k, and no later entry has its path. */
  ghost predicate LastAt(entries: seq<Entry>, k: nat, e: Entry)
    requires k < |entries|
  {
    entries[k] == e && forall j | k < j < |entries| :: entries[j].path != e.path
  }

  /** The dictionary of any batch has each path once, with the last entry of that path. */
  lemma {:induction false} DictExact(entries: seq<Entry>, e: Entry)
    ensures DistinctPaths(Dict(entries))
    ensures e in Dict(entries) <==> exists k :: 0 <= k < |entries| && LastAt(entries, k, e)
  {
    hide DictPut, DistinctPaths, LastAt;
    if entries == [] {
      assert DistinctPaths([]) by { NoPaths(); }
    } else {
      var n := |entries| - 1;
      DictExact(entries[..n], e);
      DictPutExact(Dict(entries[..n]), entries[n], e);
      LastOfPath(entries, e);
    }
  }

  lemma NoPaths()
    ensures DistinctPaths([])
  {
  }

  /** Which entry is the last of its path, with one more entry. */
  lemma LastOfPath(entries: seq<Entry>, e: Entry)
    requires entries != []
    ensures var n := |entries| - 1;
            (exists k :: 0 <= k < |entries| && LastAt(entries, k, e)) <==>
              e == entries[n] || (e.path != entries[n].path && exists k :: 0 <= k < n && LastAt(entries[..n], k, e))
  {
    var n := |entries| - 1;
    forall k | 0 <= k < n
      ensures LastAt(entries, k, e) <==> LastAt(entries[..n], k, e) && e.path != entries[n].path {
      assert forall j | k < j < n :: entries[..n][j] == entries[j];
    }
    assert LastAt(entries, n, e) <==> e == entries[n];
    hide LastAt;
  }

  lemma {:induction false} DictPutFrom(dict: seq<Entry>, e: Entry)
    ensures forall y | y in DictPut(dict, e) :: y == e || y in dict
  {
    if dict != [] {
      DictPutFrom(dict[1..], e);
      assert dict == [dict[0]] + dict[1..];
    }
  }

  lemma DistinctCons(x: Entry, rest: seq<Entry>)
    ensures DistinctPaths([x] + rest) <==> DistinctPaths(rest) && Lacks(rest, x.path)
  {
    var all := [x] + rest;
    assert all[1..] == rest;
    if DistinctPaths(all) {
      forall i, j | 0 <= i < j < |rest| ensures rest[i].path != rest[j].path {
        assert all[i + 1].path != all[j + 1].path;
      }
      forall y | y in rest ensures y.path != x.path {
        var k :| 0 <= k < |rest| && rest[k] == y;
        assert all[0].path != all[k + 1].path;
      }
    }
  }

  lemma {:induction false} DictPutExact(dict: seq<Entry>, e: Entry, x: Entry)
    requires DistinctPaths(dict)
    ensures DistinctPaths(DictPut(dict, e))
    ensures x in DictPut(dict, e) <==> x == e || (x in dict && x.path != e.path)
  {
    hide DistinctPaths;
    if dict == [] {
      DistinctCons(e, []);
      assert [e] + [] == [e];
    } else {
      var rest := dict[1..];
      assert dict == [dict[0]] + rest;
      DistinctCons(dict[0], rest);
      if dict[0].path == e.path {
        DistinctCons(e, rest);
      } else {
        DictPutExact(rest, e, x);
        DictPutFrom(rest, e);
        DistinctCons(dict[0], DictPut(rest, e));
      }
    }
  }

  // ---------- What is written, field by field ----------

  /** A line of the dump that can be decoded and is not below an upload directory. */
  ghost predicate Listed(lines: seq<Option<Entry>>, e: Entry) {
    Some(e) in lines && forall i | 0 <= i <= |e.path| :: !("/upload/" <= e.path[i..])
  }

  /** A newly mapped file takes title, recid and date of publication from the database, and the last access from the dump;
      a newly dark one its size, checksum and both times from the dump; a document that stays where it was only takes the
      last access. */
  lemma DumpWritesFields(w: Indexes, known: Known, clock: Clock, lines: seq<Option<Entry>>, size: nat, e: Entry)
    requires size >= 1 && DistinctPaths(Kept(lines)) && Listed(lines, e)
    ensures var w', p, url := DumpProcessed(w, known, clock, lines, size), e.path, "root://eospublic.cern.ch/" + e.path;
            if p in w.mapped then
              p in w'.mapped && w'.mapped[p] == w.mapped[p].(lastAccessed := clock(e.atime)) && (p in w'.dark <==> p in w.dark)
            else if url in known then
              && p in w'.mapped && p !in w'.dark && w'.mapped[p].Mapped?
              && w'.mapped[p].info.title == known[url].title && w'.mapped[p].info.recid == known[url].recid
              && w'.mapped[p].info.published == known[url].published && w'.mapped[p].lastAccessed == clock(e.atime)
            else if p in w.dark then
              p !in w'.mapped && p in w'.dark && w'.dark[p] == w.dark[p].(lastAccessed := clock(e.atime))
            else
              && p !in w'.mapped && p in w'.dark && w'.dark[p].Dark?
              && w'.dark[p].size == e.size && w'.dark[p].checksum == e.checksum
              && w'.dark[p].lastModified == clock(e.mtime) && w'.dark[p].lastAccessed == clock(e.atime)
  {
    hide DumpProcessed, ReconciledAll, Kept, Contains, DistinctPaths;
    KeptExact(lines);
    ContainsExact(e.path, IGNORED_PATH);
    DumpRefines(w, known, clock, lines, size);
    ReconciledAt(w, known, clock, Kept(lines), e.path);
    var w' := DumpProcessed(w, known, clock, lines, size);
    assert At(w', e.path) == Effect(At(w, e.path), known, clock, e);
  }

  // ---------- The job, working on the indexes in place ----------

  class DumpTask {
    const known: Known
    const clock: Clock
    var mapped: Index
    var dark: Index

    constructor (w: Indexes, known: Known, clock: Clock)
      ensures this.known == known && this.clock == clock && View() == w
    {
      this.known, this.clock, mapped, dark := known, clock, w.mapped, w.dark;
    }

    function View(): Indexes
      reads this
    {
      Indexes(mapped, dark)
    }

    /** Splits the entries into those whose access time changed and those that are not mapped. */
    method CompareWithMapped(batch: seq<Entry>) returns (updates: seq<Entry>, rest: seq<Entry>)
      ensures updates == MappedUpdates(View(), clock, batch) && rest == Unmapped(View(), batch)
    {
      updates, rest := [], [];
      for i := 0 to |batch|
        invariant updates == MappedUpdates(View(), clock, batch[..i]) && rest == Unmapped(View(), batch[..i])
      {
        assert batch[..i + 1][..i] == batch[..i];
        var e := batch[i];
        if e.path in mapped {
          if mapped[e.path].lastAccessed != clock(e.atime) {
            updates := updates + [e];
          }
        } else {
          rest := rest + [e];
        }
      }
      assert batch[..|batch|] == batch;
    }

    /** Decides, entry by entry, what to do with the files that are not mapped. */
    method PlanDark(entries: seq<Entry>) returns (updates: seq<Entry>, actions: seq<Action>)
      ensures updates == DarkUpdates(dark, known, clock, entries)
      ensures actions == Actions(dark, known, clock, entries)
    {
      updates, actions := [], [];
      for i := 0 to |entries|
        invariant updates == DarkUpdates(dark, known, clock, entries[..i])
        invariant actions == Actions(dark, known, clock, entries[..i])
      {
        assert entries[..i + 1][..i] == entries[..i];
        ghost var before := actions;
        var e := entries[i];
        if PREFIX + e.path in known {
          actions := actions + [PutMapped(e.path, FromDatabase(clock, e, known[PREFIX + e.path]))];
          if e.path in dark {
            actions := actions + [DeleteDark(e.path)];
          }
        } else if e.path in dark {
          if dark[e.path].lastAccessed != clock(e.atime) {
            updates := updates + [e];
          }
        } else {
          actions := actions + [PutDark(e.path, DarkFile(clock, e))];
        }
        assert actions == before + ActionsFor(dark, known, clock, e);
      }
      assert entries[..|entries|] == entries;
    }

    method BuildDict(entries: seq<Entry>) returns (dict: seq<Entry>)
      ensures dict == Dict(entries)
    {
      dict := [];
      for i := 0 to |entries|
        invariant dict == Dict(entries[..i])
      {
        assert entries[..i + 1][..i] == entries[..i];
        dict := DictPut(dict, entries[i]);
      }
      assert entries[..|entries|] == entries;
    }

    method ProcessBatch(batch: seq<Entry>)
      modifies this`mapped, this`dark
      ensures View() == BatchProcessed(old(View()), known, clock, batch)
    {
      hide MappedUpdates, Unmapped, DarkUpdates, Actions, Bulk, Touched;
      var updates, rest := CompareWithMapped(batch);
      mapped := Touched(mapped, clock, updates);
      if rest == [] {
        NothingToDo(known, clock, View());
        return;
      }
      var dict := BuildDict(rest);
      var darkUpdates, actions := PlanDark(dict);
      dark := Touched(dark, clock, darkUpdates);
      var after := Bulk(View(), actions);
      mapped, dark := after.mapped, after.dark;
    }

    /** The numbers that the job reports: the last, incomplete batch is not counted. */
    method ProcessDump(lines: seq<Option<Entry>>, size: nat) returns (processed: nat, skipped: nat)
      requires size >= 1
      modifies this`mapped, this`dark
      ensures View() == DumpProcessed(old(View()), known, clock, lines, size)
      ensures processed == |Kept(lines)| - |Kept(lines)| % size
      ensures skipped == Decoded(lines) - |Kept(lines)|
    {
      hide BatchProcessed, Contains, Batches, KeptFrom, Kept, Decoded, IsMultiple;
      ghost var whole, pending := DumpProcessed(View(), known, clock, lines, size), Kept(lines);
      var current: seq<Entry> := [];
      processed, skipped := 0, 0;
      KeptEnds(lines);
      assert IsMultiple(0, size) by { NoMultiple(size); }
      for i := 0 to |lines|
        invariant |current| < size && IsMultiple(processed, size)
        invariant |Kept(lines[..i])| == processed + |current|
        invariant skipped == Decoded(lines[..i]) - |Kept(lines[..i])|
        invariant pending == current + KeptFrom(lines, i)
        invariant Batches(View(), known, clock, pending, size) == whole
      {
        KeptStep(lines, i);
        if lines[i].None? {
          continue;
        }
        if Contains(lines[i].value.path, IGNORED_PATH) {
          skipped := skipped + 1;
          continue;
        }
        current := current + [lines[i].value];
        assert pending == current + KeptFrom(lines, i + 1);
        if |current| >= size {
          BatchesFull(View(), known, clock, current, KeptFrom(lines, i + 1), size);
          NextMultiple(processed, size);
          ProcessBatch(current);
          processed := processed + |current|;
          current, pending := [], KeptFrom(lines, i + 1);
        }
      }
      assert lines[..|lines|] == lines;
      assert pending == current;
      BatchesRest(View(), known, clock, current, size);
      AboveMultiple(processed, |current|, size);
      if current != [] {
        ProcessBatch(current);
      }
    }
  }

  /** A full batch is processed as soon as it is there. */
  lemma BatchesFull(w: Indexes, known: Known, clock: Clock, current: seq<Entry>, rest: seq<Entry>, size: nat)
    requires |current| == size >= 1
    ensures Batches(w, known, clock, current + rest, size)
         == Batches(BatchProcessed(w, known, clock, current), known, clock, rest, size)
  {
    hide BatchProcessed;
    var all := current + rest;
    var n := if size < |all| then size else |all|;
    assert n == size && all[..n] == current && all[n..] == rest;
  }

  /** What is left at the end is one more batch. */
  lemma BatchesRest(w: Indexes, known: Known, clock: Clock, current: seq<Entry>, size: nat)
    requires |current| < size
    ensures Batches(w, known, clock, current, size) == if current == [] then w else BatchProcessed(w, known, clock, current)
  {
    hide BatchProcessed;
    assert current[..|current|] == current && current[|current|..] == [];
  }

  lemma KeptEnds(lines: seq<Option<Entry>>)
    ensures KeptFrom(lines, 0) == Kept(lines) && KeptFrom(lines, |lines|) == []
    ensures Kept(lines[..0]) == [] && Decoded(lines[..0]) == 0
  {
    assert lines[..0] == [];
    assert lines[0..] == lines && lines[|lines|..] == [];
  }

  lemma NothingToDo(known: Known, clock: Clock, w: Indexes)
    ensures Touched(w.dark, clock, DarkUpdates(w.dark, known, clock, Dict([]))) == w.dark
    ensures Bulk(w, Actions(w.dark, known, clock, Dict([]))) == w
  {
  }

  function Decoded(lines: seq<Option<Entry>>): nat {
    if lines == [] then 0 else Decoded(lines[..|lines| - 1]) + if lines[|lines| - 1].Some? then 1 else 0
  }

  /** The entries to process from a line on. */
  ghost function KeptFrom(lines: seq<Option<Entry>>, i: nat): seq<Entry>
    requires i <= |lines|
  {
    Kept(lines[i..])
  }

  lemma {:induction false} KeptAppend(a: seq<Option<Entry>>, b: seq<Option<Entry>>)
    ensures Kept(a + b) == Kept(a) + Kept(b)
  {
    hide Contains;
    if b == [] {
      assert a + b == a;
    } else {
      assert (a + b)[..|a + b| - 1] == a + b[..|b| - 1];
      KeptAppend(a, b[..|b| - 1]);
    }
  }

  predicate IsMultiple(x: nat, size: nat)
    requires size >= 1
  {
    x % size == 0
  }

  lemma NoMultiple(size: nat)
    requires size >= 1
    ensures IsMultiple(0, size)
  {
  }

  lemma NextMultiple(x: nat, size: nat)
    requires size >= 1 && IsMultiple(x, size)
    ensures IsMultiple(x + size, size)
  {
    Multiples(x, size, 0);
  }

  lemma AboveMultiple(x: nat, r: nat, size: nat)
    requires size >= 1 && IsMultiple(x, size) && r < size
    ensures (x + r) % size == r
  {
    Multiples(x, size, r);
  }

  lemma KeptStep(lines: seq<Option<Entry>>, i: nat)
    requires i < |lines|
    ensures var kept := lines[i].Some? && !Contains(lines[i].value.path, IGNORED_PATH);
            && Kept(lines[..i + 1]) == Kept(lines[..i]) + (if kept then [lines[i].value] else [])
            && Decoded(lines[..i + 1]) == Decoded(lines[..i]) + (if lines[i].Some? then 1 else 0)
    ensures KeptFrom(lines, i)
         == (if lines[i].Some? && !Contains(lines[i].value.path, IGNORED_PATH) then [lines[i].value] else []) + KeptFrom(lines, i + 1)
  {
    hide Contains;
    assert lines[..i + 1][..i] == lines[..i];
    assert lines[i..] == [lines[i]] + lines[i + 1..];
    KeptAppend([lines[i]], lines[i + 1..]);
    assert [lines[i]][..0] == [];
  }
}
