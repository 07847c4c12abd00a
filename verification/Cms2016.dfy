/** The relations between the simulated CMS datasets of 2016, derived from the titles of a release. */
module Cms2016 {
  import opened Options
  import opened Text

  datatype Record = Record(title: string, recid: string)

  const MINI := "MINIAODSIM"
  const NANO := "NANOAODSIM"

  /** The nonempty pieces between slashes. */
  function Parts(title: string): seq<string>
    decreases |title|
  {
    match Cut(title, '/')
    case None => if title == "" then [] else [title]
    case Some((first, rest)) => (if first == "" then [] else [first]) + Parts(rest)
  }

  /** The dataset and the tier: the first and the last piece. */
  datatype Parsed = Parsed(dataset: Option<string>, tier: Option<string>)

  function ParseTitle(title: string): Parsed {
    var parts := Parts(title);
    if parts == [] then Parsed(None, None) else Parsed(Some(parts[0]), Some(parts[|parts| - 1]))
  }

  datatype RelationType = IsChildOf | IsParentOf

  datatype Relation = Relation(recid: string, relationType: RelationType)

  /** The first record with that dataset and tier. */
  function FirstMatch(records: seq<Record>, wanted: Parsed): (r: Option<Record>)
    ensures r.None? <==> forall k | 0 <= k < |records| :: ParseTitle(records[k].title) != wanted
    ensures r.Some? ==> exists k :: 0 <= k < |records| && records[k] == r.value && ParseTitle(r.value.title) == wanted
                                    && forall j | 0 <= j < k :: ParseTitle(records[j].title) != wanted
  {
    if records == [] then None
    else if ParseTitle(records[0].title) == wanted then Some(records[0])
    else FirstMatch(records[1..], wanted)
  }

  function Relations(records: seq<Record>, r: Record): Option<Relation> {
    var parsed := ParseTitle(r.title);
    if parsed.tier == Some(MINI) then
      match FirstMatch(records, Parsed(parsed.dataset, Some(NANO)))
      case None => None
      case Some(other) => Some(Relation(other.recid, IsChildOf))
    else if parsed.tier == Some(NANO) then
      match FirstMatch(records, Parsed(parsed.dataset, Some(MINI)))
      case None => None
      case Some(other) => Some(Relation(other.recid, IsParentOf))
    else None
  }

  /** No two records have the same recid, and no two have the same dataset and tier. */
  ghost predicate Unambiguous(records: seq<Record>) {
    forall a, b | a in records && b in records && (a.recid == b.recid || ParseTitle(a.title) == ParseTitle(b.title)) :: a == b
  }

  /** The relations are mutual: one record is a child of another exactly if that one is its parent. */
  lemma RelationsAreMutual(records: seq<Record>, a: Record, b: Record)
    requires Unambiguous(records) && a in records && b in records
    ensures Relations(records, a) == Some(Relation(b.recid, IsChildOf)) <==>
            Relations(records, b) == Some(Relation(a.recid, IsParentOf))
  {
    hide ParseTitle, FirstMatch;
    if Relations(records, a) == Some(Relation(b.recid, IsChildOf)) {
      var wanted := Parsed(ParseTitle(a.title).dataset, Some(NANO));
      assert FirstMatch(records, wanted).value == b;
      assert ParseTitle(a.title) == Parsed(wanted.dataset, Some(MINI));
      MatchIsFound(records, a);
    }
    if Relations(records, b) == Some(Relation(a.recid, IsParentOf)) {
      var wanted := Parsed(ParseTitle(b.title).dataset, Some(MINI));
      assert FirstMatch(records, wanted).value == a;
      assert ParseTitle(b.title) == Parsed(wanted.dataset, Some(NANO));
      MatchIsFound(records, b);
    }
  }

  lemma MatchIsFound(records: seq<Record>, r: Record)
    requires Unambiguous(records) && r in records
    ensures FirstMatch(records, ParseTitle(r.title)) == Some(r)
  {
    hide ParseTitle;
  }

  predicate OnlySlashes(s: string) {
    forall c | c in s :: c == '/'
  }

  /** The pieces are what stands between runs of slashes: each is nonempty, holds no slash, and is ended by a slash or
      by the end; nothing but slashes is left out. */
  ghost predicate CutAtSlashes(title: string, parts: seq<string>)
    decreases |parts|
  {
    if parts == [] then OnlySlashes(title)
    else exists n, m | 0 <= n < m <= |title| :: PieceAt(title, n, m, parts[0]) && CutAtSlashes(title[m..], parts[1..])
  }

  predicate PieceAt(title: string, n: nat, m: nat, piece: string)
    requires n < m <= |title|
  {
    OnlySlashes(title[..n]) && title[n..m] == piece && '/' !in piece && (m < |title| ==> title[m] == '/')
  }

  lemma SlashAhead(s: string)
    ensures Parts(['/'] + s) == Parts(s)
  {
    assert ['/'] + s == "" + ['/'] + s;
    CutJoined("", '/', s);
  }

  lemma {:induction false} SlashesAhead(slashes: string, s: string)
    requires OnlySlashes(slashes)
    ensures Parts(slashes + s) == Parts(s)
  {
    hide Parts;
    if slashes == "" {
      assert slashes + s == s;
    } else {
      assert slashes[0] in slashes && forall c | c in slashes[1..] :: c in slashes;
      SlashesAhead(slashes[1..], s);
      SlashAhead(slashes[1..] + s);
      assert slashes + s == ['/'] + (slashes[1..] + s);
    }
  }

  lemma PieceAhead(piece: string, rest: string)
    requires piece != "" && '/' !in piece && (rest != "" ==> rest[0] == '/')
    ensures Parts(piece + rest) == [piece] + Parts(rest)
  {
    if rest == "" {
      assert piece + rest == piece && [piece] + [] == [piece];
    } else {
      assert rest == ['/'] + rest[1..] && piece + rest == piece + ['/'] + rest[1..];
      CutJoined(piece, '/', rest[1..]);
      SlashesAhead(['/'], rest[1..]);
    }
  }

  lemma {:induction false} OnlyCut(title: string, parts: seq<string>)
    requires CutAtSlashes(title, parts)
    ensures parts == Parts(title)
    decreases |parts|
  {
    hide Parts;
    if parts == [] {
      SlashesAhead(title, "");
      assert title + "" == title && Parts("") == [] by { NoParts(); }
    } else {
      var n, m :| 0 <= n < m <= |title| && PieceAt(title, n, m, parts[0]) && CutAtSlashes(title[m..], parts[1..]);
      OnlyCut(title[m..], parts[1..]);
      assert title == title[..n] + (parts[0] + title[m..]);
      SlashesAhead(title[..n], parts[0] + title[m..]);
      PieceAhead(parts[0], title[m..]);
    }
  }

  lemma NoParts()
    ensures Parts("") == []
  {
  }

  lemma PieceLater(s: string, n: nat, m: nat, piece: string)
    requires n < m <= |s| && PieceAt(s, n, m, piece)
    ensures PieceAt(['/'] + s, n + 1, m + 1, piece) && (['/'] + s)[m + 1..] == s[m..]
  {
    var t := ['/'] + s;
    assert t[..n + 1] == ['/'] + s[..n] && t[n + 1..m + 1] == s[n..m];
  }

  lemma OneMoreSlash(s: string, parts: seq<string>)
    requires CutAtSlashes(s, parts)
    ensures CutAtSlashes(['/'] + s, parts)
  {
    hide PieceAt;
    var t := ['/'] + s;
    if parts != [] {
      var n, m :| 0 <= n < m <= |s| && PieceAt(s, n, m, parts[0]) && CutAtSlashes(s[m..], parts[1..]);
      PieceLater(s, n, m, parts[0]);
      assert PieceAt(t, n + 1, m + 1, parts[0]) && CutAtSlashes(t[m + 1..], parts[1..]);
    }
  }

  lemma {:induction false} PartsAreCut(title: string)
    ensures CutAtSlashes(title, Parts(title))
    decreases |title|
  {
    hide CutAtSlashes;
    match Cut(title, '/')
    case None => WholePiece(title);
    case Some((first, rest)) =>
      PartsAreCut(rest);
      PieceThenSlash(first, rest, Parts(rest));
  }

  lemma PieceThenSlash(first: string, rest: string, parts: seq<string>)
    requires '/' !in first && CutAtSlashes(rest, parts)
    ensures CutAtSlashes(first + ['/'] + rest, (if first == "" then [] else [first]) + parts)
  {
    hide CutAtSlashes;
    OneMoreSlash(rest, parts);
    if first == "" {
      assert first + ['/'] + rest == ['/'] + rest && [] + parts == parts;
    } else {
      assert first + ['/'] + rest == first + (['/'] + rest);
      FirstPiece(first, ['/'] + rest, parts);
    }
  }

  lemma FirstPiece(piece: string, rest: string, parts: seq<string>)
    requires piece != "" && '/' !in piece && (rest != "" ==> rest[0] == '/') && CutAtSlashes(rest, parts)
    ensures CutAtSlashes(piece + rest, [piece] + parts)
  {
    var title, m, all := piece + rest, |piece|, [piece] + parts;
    assert title[0..m] == piece && title[m..] == rest && all[1..] == parts;
    assert PieceAt(title, 0, m, all[0]) && CutAtSlashes(title[m..], all[1..]);
  }

  lemma WholePiece(title: string)
    requires '/' !in title
    ensures CutAtSlashes(title, if title == "" then [] else [title])
  {
    if title != "" {
      assert CutAtSlashes("", []);
      FirstPiece(title, "", []);
      assert title + "" == title && [title] + [] == [title];
    }
  }

  /** The pieces of a title are the one way to cut it at its slashes. */
  lemma PartsExact(title: string, parts: seq<string>)
    ensures CutAtSlashes(title, parts) <==> parts == Parts(title)
  {
    hide CutAtSlashes, Parts;
    PartsAreCut(title);
    if CutAtSlashes(title, parts) {
      OnlyCut(title, parts);
    }
  }

  // ---------- The relations, by the titles ----------

  /** The first and the last piece of the title. */
  ghost predicate Titled(title: string, dataset: string, tier: string) {
    exists parts :: parts != [] && CutAtSlashes(title, parts) && parts[0] == dataset && parts[|parts| - 1] == tier
  }

  /** The first record with that title in the release has that recid. */
  ghost predicate FirstTitled(records: seq<Record>, dataset: string, tier: string, recid: string) {
    exists k ::
      && 0 <= k < |records| && Titled(records[k].title, dataset, tier) && records[k].recid == recid
      && forall j | 0 <= j < k :: !Titled(records[j].title, dataset, tier)
  }

  lemma TitledExact(title: string, dataset: string, tier: string)
    ensures Titled(title, dataset, tier) <==> ParseTitle(title) == Parsed(Some(dataset), Some(tier))
  {
    hide CutAtSlashes, Parts;
    PartsExact(title, Parts(title));
    if parts :| parts != [] && CutAtSlashes(title, parts) && parts[0] == dataset && parts[|parts| - 1] == tier {
      PartsExact(title, parts);
    }
  }

  lemma FirstTitledExact(records: seq<Record>, dataset: string, tier: string, recid: string)
    ensures FirstTitled(records, dataset, tier, recid) <==>
              var found := FirstMatch(records, Parsed(Some(dataset), Some(tier))); found.Some? && found.value.recid == recid
  {
    hide ParseTitle, Titled, FirstMatch;
    forall k | 0 <= k < |records|
      ensures Titled(records[k].title, dataset, tier) <==> ParseTitle(records[k].title) == Parsed(Some(dataset), Some(tier)) {
      TitledExact(records[k].title, dataset, tier);
    }
    var found := FirstMatch(records, Parsed(Some(dataset), Some(tier)));
    if k :| 0 <= k < |records| && Titled(records[k].title, dataset, tier) && records[k].recid == recid
            && forall j | 0 <= j < k :: !Titled(records[j].title, dataset, tier) {
      assert found.Some?;
      var i :| 0 <= i < |records| && records[i] == found.value && ParseTitle(found.value.title) == Parsed(Some(dataset), Some(tier))
               && forall j | 0 <= j < i :: ParseTitle(records[j].title) != Parsed(Some(dataset), Some(tier));
      assert i == k;
    }
  }

  /** A mini dataset is a child of the first nano dataset of the same name, and a nano dataset a parent of the first mini
      one; nothing else has a relation. */
  lemma RelationsExactly(records: seq<Record>, r: Record, recid: string, dataset: string)
    ensures Relations(records, r) == Some(Relation(recid, IsChildOf)) ==>
              exists d :: Titled(r.title, d, "MINIAODSIM") && FirstTitled(records, d, "NANOAODSIM", recid)
    ensures Relations(records, r) == Some(Relation(recid, IsParentOf)) ==>
              exists d :: Titled(r.title, d, "NANOAODSIM") && FirstTitled(records, d, "MINIAODSIM", recid)
    ensures Titled(r.title, dataset, "MINIAODSIM") && FirstTitled(records, dataset, "NANOAODSIM", recid) ==>
              Relations(records, r) == Some(Relation(recid, IsChildOf))
    ensures Titled(r.title, dataset, "NANOAODSIM") && FirstTitled(records, dataset, "MINIAODSIM", recid) ==>
              Relations(records, r) == Some(Relation(recid, IsParentOf))
  {
    hide FirstMatch, Titled, FirstTitled;
    var parsed := ParseTitle(r.title);
    TitledExact(r.title, dataset, "MINIAODSIM");
    TitledExact(r.title, dataset, "NANOAODSIM");
    FirstTitledExact(records, dataset, "NANOAODSIM", recid);
    FirstTitledExact(records, dataset, "MINIAODSIM", recid);
    if parsed.dataset.Some? {
      var d := parsed.dataset.value;
      TitledExact(r.title, d, "MINIAODSIM");
      TitledExact(r.title, d, "NANOAODSIM");
      FirstTitledExact(records, d, "NANOAODSIM", recid);
      FirstTitledExact(records, d, "MINIAODSIM", recid);
    }
  }
}
