/** Links between the documents of a release: what is reported, what is fixable, and what the fix achieves. */
module DocLinks {
  import opened Options
  import opened Text
  import opened LinkPattern

  // ---------- Documents ----------

  /** A document; the content is None when it is missing or not a text. */
  datatype Body = Body(format: string, content: Option<string>)

  datatype Doc = Doc(slug: Option<string>, body: Option<Body>)

  datatype LinkError =
    | AbsoluteMissing(doc: nat, slug: string)
    | BareKnown(doc: nat, slug: string)
    | BareUnknown(doc: nat, slug: string)

  /** The Markdown text of a document; "" when there is none. */
  function Content(d: Doc): string {
    if d.body.Some? && d.body.value.format == "md" && d.body.value.content.Some? then d.body.value.content.value else ""
  }

  function ReleaseSlugs(docs: seq<Doc>): set<string> {
    set i | 0 <= i < |docs| && docs[i].slug.Some? && docs[i].slug.value != "" :: docs[i].slug.value
  }

  function DocTargets(d: Doc): seq<string> {
    Targets(Scan(Content(d), false))
  }

  function Missing(i: nat, slugs: seq<string>, known: set<string>): seq<LinkError> {
    if slugs == [] then []
    else Missing(i, slugs[..|slugs| - 1], known)
         + if slugs[|slugs| - 1] in known then [] else [AbsoluteMissing(i, slugs[|slugs| - 1])]
  }

  function BareErrors(i: nat, slugs: seq<string>, known: set<string>): seq<LinkError> {
    if slugs == [] then []
    else
      var slug := slugs[|slugs| - 1];
      BareErrors(i, slugs[..|slugs| - 1], known) + [if slug in known then BareKnown(i, slug) else BareUnknown(i, slug)]
  }

  /** The errors of one document, whose number counts from one. */
  function DocErrors(i: nat, d: Doc, known: set<string>): seq<LinkError> {
    var targets := DocTargets(d);
    Missing(i, AbsoluteSlugs(targets), known) + BareErrors(i, BareSlugs(targets), known)
  }

  function ErrorsOf(docs: seq<Doc>, known: set<string>): seq<LinkError> {
    if docs == [] then []
    else ErrorsOf(docs[..|docs| - 1], known) + DocErrors(|docs|, docs[|docs| - 1], known)
  }

  /** A slug is known if it names a document of the release or is registered. */
  function Known(docs: seq<Doc>, registered: set<string>): set<string> {
    ReleaseSlugs(docs) + registered
  }

  function Errors(docs: seq<Doc>, registered: set<string>): seq<LinkError> {
    ErrorsOf(docs, Known(docs, registered))
  }

  function KnownBare(d: Doc, known: set<string>): set<string> {
    set slug | slug in BareSlugs(DocTargets(d)) && slug in known
  }

  predicate IsFixable(docs: seq<Doc>, registered: set<string>) {
    exists i | 0 <= i < |docs| :: KnownBare(docs[i], Known(docs, registered)) != {}
  }

  function FixedDoc(d: Doc, known: set<string>): Doc {
    var bare := KnownBare(d, known);
    if bare == {} || d.body.None? then d
    else d.(body := Some(d.body.value.(content := Some(Rewrite(Content(d), false, bare)))))
  }

  function Fixed(docs: seq<Doc>, registered: set<string>): (r: seq<Doc>)
    ensures |r| == |docs|
  {
    seq(|docs|, i requires 0 <= i < |docs| => FixedDoc(docs[i], Known(docs, registered)))
  }

  function WithoutFixable(errors: seq<LinkError>): seq<LinkError> {
    if errors == [] then []
    else
      var last := errors[|errors| - 1];
      WithoutFixable(errors[..|errors| - 1]) + if last.BareKnown? then [] else [last]
  }

  // ---------- One target ----------

  lemma StripIdentity(s: string, drop: char -> bool)
    requires s != "" ==> !drop(s[0]) && !drop(s[|s| - 1])
    ensures StripBoth(s, drop) == s
  {
  }

  lemma StripEnds(target: string)
    ensures var raw := Strip(target); raw != "" ==> !IsSpace(raw[0]) && !IsSpace(raw[|raw| - 1])
  {
  }

  lemma BeforeCut(a: string, c: char, b: string)
    requires c !in a && (b == "" || b[0] == c)
    ensures Before(a + b, c) == a
  {
    if b == "" {
      assert a + b == a;
    } else {
      assert a + b == a + [c] + b[1..];
      CutJoined(a, c, b[1..]);
    }
  }

  /** The path ends at the first '#' or '?', whichever comes first. */
  lemma PathOfParts(raw: string, path: string, suffix: string)
    requires raw == path + suffix && '#' !in path && '?' !in path
    requires suffix == "" || suffix[0] == '#' || suffix[0] == '?'
    ensures Before(Before(raw, '#'), '?') == path
  {
    var first := Before(raw, '#');
    assert forall k | 0 <= k < |path| :: raw[k] == path[k];
    assert |first| >= |path|;
    var rest := first[|path|..];
    assert first == path + rest;
    if rest != "" {
      assert rest[0] == suffix[0];
    }
    BeforeCut(path, '?', rest);
  }

  lemma AbsoluteParts(path: string, suffix: string)
    requires IsSlug(path) && '#' !in path && '?' !in path
    requires suffix == "" || suffix[0] == '#' || suffix[0] == '?'
    requires var raw := path + suffix; !IsSpace(raw[|raw| - 1])
    ensures var t := DOCS + path + suffix; Strip(t) == t && Path(t) == DOCS + path && Suffix(t) == suffix
  {
    hide StripBoth, Before;
    var t := DOCS + path + suffix;
    assert t == DOCS + (path + suffix);
    StripIdentity(t, IsSpace);
    PathOfParts(t, DOCS + path, suffix);
  }

  /** A rewritten target is an absolute link to the slug it was, with its old fragment and query. */
  lemma RewrittenTarget(target: string)
    requires IsSlug(Path(target))
    ensures var t := DOCS + Path(target) + Suffix(target);
            Path(t) == DOCS + Path(target) && Suffix(t) == Suffix(target)
            && AbsoluteSlug(t) == Path(target) && !IsSlug(Path(t))
  {
    hide Path, Suffix, StripBoth;
    var path, suffix := Path(target), Suffix(target);
    TargetParts(target);
    StripEnds(target);
    AbsoluteParts(path, suffix);
    assert (DOCS + path)[|DOCS|..] == path;
    assert path[0] in path && path[|path| - 1] in path;
    StripIdentity(path, c => c == '/');
    assert (DOCS + path)[0] == '/' && '/' in DOCS + path;
  }

  lemma BareIsNotAbsolute(target: string)
    requires IsSlug(Path(target))
    ensures AbsoluteSlug(target) == ""
  {
    hide Path;
    var path := Path(target);
    assert path[0] in path && DOCS[0] == '/';
  }

  // ---------- The links of a document after the fix ----------

  function NewTargets(targets: seq<string>, known: set<string>): (r: seq<string>)
    ensures |r| == |targets|
  {
    seq(|targets|, i requires 0 <= i < |targets| => NewTarget(targets[i], known))
  }

  lemma {:induction false} TargetsRewritten(tokens: seq<Token>, known: set<string>)
    ensures Targets(RewriteTokens(tokens, known)) == NewTargets(Targets(tokens), known)
  {
    hide NewTarget;
    if tokens != [] {
      TargetsRewritten(tokens[1..], known);
      var rest := Targets(tokens[1..]);
      if tokens[0].Link? {
        assert NewTargets([tokens[0].target] + rest, known) == [NewTarget(tokens[0].target, known)] + NewTargets(rest, known);
      } else {
        assert [] + rest == rest;
      }
    }
  }

  lemma ContentIsText(d: Doc)
    requires Content(d) != ""
    ensures d.body.Some? && d.body.value.format == "md" && d.body.value.content == Some(Content(d))
  {
  }

  lemma FixedContent(d: Doc, known: set<string>)
    ensures Content(FixedDoc(d, known)) == Rewrite(Content(d), false, KnownBare(d, known)) || KnownBare(d, known) == {}
    ensures DocTargets(FixedDoc(d, known)) == NewTargets(DocTargets(d), KnownBare(d, known))
  {
    hide Rewrite, Scan, RewriteTokens, NewTarget;
    var bare := KnownBare(d, known);
    if bare == {} {
      assert forall t :: NewTarget(t, {}) == t by { NothingKnown(); }
      assert NewTargets(DocTargets(d), {}) == DocTargets(d);
    } else {
      assert Content(d) != "" by { NoTargets(); }
      ContentIsText(d);
      RescanRewritten(Content(d), false, bare);
      TargetsRewritten(Scan(Content(d), false), bare);
    }
  }

  lemma NothingKnown()
    ensures forall t :: NewTarget(t, {}) == t
  {
  }

  lemma NoTargets()
    ensures BareSlugs(Targets(Scan("", false))) == []
  {
  }

  /** The slugs that are not known, in order. */
  function Unknown(slugs: seq<string>, known: set<string>): seq<string> {
    if slugs == [] then []
    else
      Unknown(slugs[..|slugs| - 1], known)
      + if slugs[|slugs| - 1] in known then [] else [slugs[|slugs| - 1]]
  }

  lemma {:induction false} UnknownMembers(slugs: seq<string>, known: set<string>)
    ensures forall s :: s in Unknown(slugs, known) <==> s in slugs && s !in known
  {
    if slugs != [] {
      UnknownMembers(slugs[..|slugs| - 1], known);
      assert slugs == slugs[..|slugs| - 1] + [slugs[|slugs| - 1]];
    }
  }

  lemma UnknownAppend(slugs: seq<string>, s: string, known: set<string>)
    ensures Unknown(slugs + [s], known) == Unknown(slugs, known) + if s in known then [] else [s]
  {
    assert (slugs + [s])[..|slugs|] == slugs;
  }

  /** Rewriting the known bare links leaves the unknown absolute slugs and the unknown bare slugs, in order. */
  lemma {:induction false} SlugsAfterFix(targets: seq<string>, bare: set<string>, known: set<string>)
    requires bare <= known
    requires forall k | 0 <= k < |targets| && IsSlug(Path(targets[k])) && Path(targets[k]) in known :: Path(targets[k]) in bare
    ensures var after := NewTargets(targets, bare);
            && Unknown(AbsoluteSlugs(after), known) == Unknown(AbsoluteSlugs(targets), known)
            && BareSlugs(after) == Unknown(BareSlugs(targets), known)
    decreases |targets|
  {
    hide Path, Suffix, AbsoluteSlug, IsSlug;
    if targets != [] {
      var n := |targets| - 1;
      var init, t := targets[..n], targets[n];
      SlugsAfterFix(init, bare, known);
      var after := NewTargets(targets, bare);
      assert after[..n] == NewTargets(init, bare);
      UnknownMembers(AbsoluteSlugs(init), known);
      UnknownMembers(AbsoluteSlugs(after[..n]), known);
      UnknownMembers(BareSlugs(init), known);
      UnknownAppend(AbsoluteSlugs(init), AbsoluteSlug(t), known);
      UnknownAppend(AbsoluteSlugs(after[..n]), AbsoluteSlug(after[n]), known);
      UnknownAppend(BareSlugs(init), Path(t), known);
      if IsSlug(Path(t)) && Path(t) in bare {
        RewrittenTarget(t);
        BareIsNotAbsolute(t);
      }
    }
  }

  // ---------- Errors ----------

  lemma {:induction false} MissingUnknown(i: nat, slugs: seq<string>, known: set<string>)
    ensures Missing(i, slugs, known) == Missing(i, Unknown(slugs, known), known)
  {
    if slugs != [] {
      var n := |slugs| - 1;
      MissingUnknown(i, slugs[..n], known);
      if slugs[n] !in known {
        assert Unknown(slugs, known)[..|Unknown(slugs, known)| - 1] == Unknown(slugs[..n], known);
      } else {
        assert Unknown(slugs, known) == Unknown(slugs[..n], known);
      }
    }
  }

  lemma {:induction false} MissingKept(i: nat, slugs: seq<string>, known: set<string>)
    ensures WithoutFixable(Missing(i, slugs, known)) == Missing(i, slugs, known)
  {
    if slugs != [] {
      var n := |slugs| - 1;
      MissingKept(i, slugs[..n], known);
      var errors := Missing(i, slugs, known);
      if slugs[n] !in known {
        assert errors[..|errors| - 1] == Missing(i, slugs[..n], known);
      } else {
        assert errors == Missing(i, slugs[..n], known);
      }
    }
  }

  lemma {:induction false} BareKept(i: nat, slugs: seq<string>, known: set<string>)
    ensures WithoutFixable(BareErrors(i, slugs, known)) == BareErrors(i, Unknown(slugs, known), known)
  {
    if slugs != [] {
      var n := |slugs| - 1;
      BareKept(i, slugs[..n], known);
      var errors, unknown := BareErrors(i, slugs, known), Unknown(slugs, known);
      assert errors[..|errors| - 1] == BareErrors(i, slugs[..n], known);
      if slugs[n] !in known {
        assert unknown[..|unknown| - 1] == Unknown(slugs[..n], known);
      } else {
        assert unknown == Unknown(slugs[..n], known);
        assert WithoutFixable(errors) == WithoutFixable(errors[..|errors| - 1]);
      }
    }
  }

  lemma {:induction false} WithoutFixableAppend(a: seq<LinkError>, b: seq<LinkError>)
    ensures WithoutFixable(a + b) == WithoutFixable(a) + WithoutFixable(b)
  {
    if b == [] {
      assert a + b == a;
    } else {
      WithoutFixableAppend(a, b[..|b| - 1]);
      assert (a + b)[..|a + b| - 1] == a + b[..|b| - 1];
    }
  }

  lemma {:induction false} BareSlugsMembers(targets: seq<string>)
    ensures forall k | 0 <= k < |targets| && IsSlug(Path(targets[k])) :: Path(targets[k]) in BareSlugs(targets)
    ensures forall s | s in BareSlugs(targets) :: IsSlug(s)
  {
    hide Path, IsSlug;
    if targets != [] {
      BareSlugsMembers(targets[..|targets| - 1]);
    }
  }

  /** A fixed document reports what it reported before, less the links that were fixed; none of its links is fixable. */
  lemma FixedDocErrors(i: nat, d: Doc, known: set<string>)
    ensures DocErrors(i, FixedDoc(d, known), known) == WithoutFixable(DocErrors(i, d, known))
    ensures KnownBare(FixedDoc(d, known), known) == {}
  {
    hide FixedDoc, DocTargets, Path, IsSlug, NewTargets;
    var targets, bare := DocTargets(d), KnownBare(d, known);
    FixedContent(d, known);
    BareSlugsMembers(targets);
    SlugsAfterFix(targets, bare, known);
    var after := NewTargets(targets, bare);
    MissingUnknown(i, AbsoluteSlugs(after), known);
    MissingUnknown(i, AbsoluteSlugs(targets), known);
    MissingKept(i, AbsoluteSlugs(targets), known);
    BareKept(i, BareSlugs(targets), known);
    WithoutFixableAppend(Missing(i, AbsoluteSlugs(targets), known), BareErrors(i, BareSlugs(targets), known));
    UnknownMembers(BareSlugs(targets), known);
  }

  lemma {:induction false} FixedErrorsOf(docs: seq<Doc>, after: seq<Doc>, known: set<string>)
    requires |after| == |docs| && forall i | 0 <= i < |docs| :: after[i] == FixedDoc(docs[i], known)
    ensures ErrorsOf(after, known) == WithoutFixable(ErrorsOf(docs, known))
  {
    hide FixedDoc, DocErrors;
    if docs != [] {
      var n := |docs| - 1;
      FixedErrorsOf(docs[..n], after[..n], known);
      FixedDocErrors(|docs|, docs[n], known);
      WithoutFixableAppend(ErrorsOf(docs[..n], known), DocErrors(|docs|, docs[n], known));
    }
  }

  lemma FixKeepsSlugs(docs: seq<Doc>, registered: set<string>)
    ensures Known(Fixed(docs, registered), registered) == Known(docs, registered)
  {
    hide KnownBare, Rewrite;
    var after := Fixed(docs, registered);
    assert forall i | 0 <= i < |docs| :: after[i].slug == docs[i].slug;
  }

  /** After the fix, validation reports exactly the old errors that the fix cannot repair, and nothing is fixable. */
  lemma FixRemovesExactlyTheFixable(docs: seq<Doc>, registered: set<string>)
    ensures Errors(Fixed(docs, registered), registered) == WithoutFixable(Errors(docs, registered))
    ensures !IsFixable(Fixed(docs, registered), registered)
  {
    hide Known, FixedDoc, KnownBare;
    FixKeepsSlugs(docs, registered);
    var known, after := Known(docs, registered), Fixed(docs, registered);
    FixedErrorsOf(docs, after, known);
    forall i | 0 <= i < |after| ensures KnownBare(after[i], known) == {} {
      FixedDocErrors(0, docs[i], known);
    }
  }

  /** A second fix changes nothing; the first changes something exactly if something was fixable. */
  lemma FixIsIdempotent(docs: seq<Doc>, registered: set<string>)
    ensures Fixed(Fixed(docs, registered), registered) == Fixed(docs, registered)
    ensures Fixed(docs, registered) == docs <==> !IsFixable(docs, registered)
  {
    hide Known, KnownBare, IsFixable, Fixed;
    FixRemovesExactlyTheFixable(docs, registered);
    NothingToFix(Fixed(docs, registered), registered);
    if !IsFixable(docs, registered) {
      NothingToFix(docs, registered);
    }
  }

  lemma NothingToFix(docs: seq<Doc>, registered: set<string>)
    requires !IsFixable(docs, registered)
    ensures Fixed(docs, registered) == docs
  {
    hide Known, KnownBare;
  }

  /** The fix keeps the structure of a document: the same tokens in the same places; plain text and link texts are
      untouched, and exactly the known bare targets become absolute, keeping their fragment and query. */
  lemma FixKeepsStructure(d: Doc, known: set<string>, k: nat)
    requires k < |Scan(Content(d), false)|
    ensures var before, after := Scan(Content(d), false), Scan(Content(FixedDoc(d, known)), false);
            && |after| == |before| && Render(after) == Content(FixedDoc(d, known))
            && match before[k]
               case Plain(c) => after[k] == before[k]
               case Link(text, target) =>
                 after[k] == Link(text, if IsSlug(Path(target)) && Path(target) in known
                                        then DOCS + Path(target) + Suffix(target) else target)
  {
    hide FixedDoc, Scan, Render, Rewrite, Path, Suffix, IsSlug, BareSlugs;
    var text, bare := Content(d), KnownBare(d, known);
    FixedContent(d, known);
    RenderScan(Content(FixedDoc(d, known)), false);
    RescanRewritten(text, false, bare);
    BareSlugsMembers(DocTargets(d));
    TargetsMembers(Scan(text, false));
    UnfixedContent(d, known);
  }

  lemma UnfixedContent(d: Doc, known: set<string>)
    ensures KnownBare(d, known) == {} ==> FixedDoc(d, known) == d
  {
  }

  lemma {:induction false} TargetsMembers(tokens: seq<Token>)
    ensures forall k | 0 <= k < |tokens| && tokens[k].Link? :: tokens[k].target in Targets(tokens)
  {
    if tokens != [] {
      TargetsMembers(tokens[1..]);
      assert forall k | 0 < k < |tokens| :: tokens[k] == tokens[1..][k - 1];
    }
  }

  // ---------- What is reported and rewritten, from the documents alone ----------

  ghost predicate HasText(d: Doc, text: string) {
    d.body == Some(Body("md", Some(text)))
  }

  /** The Markdown text of the document has a link with that target. */
  ghost predicate LinksTo(d: Doc, target: string) {
    exists text, k :: HasText(d, text) && 0 <= k < |Scan(text, false)| && Scan(text, false)[k].Link?
                      && Scan(text, false)[k].target == target
  }

  ghost predicate AbsoluteTo(d: Doc, slug: string) {
    slug != "" && exists target :: LinksTo(d, target) && AbsoluteSlug(target) == slug
  }

  ghost predicate BareTo(d: Doc, slug: string) {
    IsSlug(slug) && exists target :: LinksTo(d, target) && Path(target) == slug
  }

  /** The slug is registered, or it is the nonempty slug of a document of the release. */
  ghost predicate Resolves(docs: seq<Doc>, registered: set<string>, slug: string) {
    slug in registered || (slug != "" && exists i :: 0 <= i < |docs| && docs[i].slug == Some(slug))
  }

  lemma KnownResolves(docs: seq<Doc>, registered: set<string>, slug: string)
    ensures slug in Known(docs, registered) <==> Resolves(docs, registered, slug)
  {
  }

  lemma {:induction false} TargetsExact(tokens: seq<Token>, target: string)
    ensures target in Targets(tokens) <==> exists k :: 0 <= k < |tokens| && tokens[k].Link? && tokens[k].target == target
  {
    if tokens != [] {
      TargetsExact(tokens[1..], target);
      assert tokens == [tokens[0]] + tokens[1..];
      if k :| 0 <= k < |tokens[1..]| && tokens[1..][k].Link? && tokens[1..][k].target == target {
        assert tokens[k + 1].Link? && tokens[k + 1].target == target;
      }
    }
  }

  lemma TargetsAreLinks(d: Doc, target: string)
    ensures target in DocTargets(d) <==> LinksTo(d, target)
  {
    hide Scan, Targets;
    TargetsExact(Scan(Content(d), false), target);
    ScanNothing();
    if Content(d) != "" {
      ContentIsText(d);
      assert HasText(d, Content(d));
    }
    if text, k :| HasText(d, text) && 0 <= k < |Scan(text, false)| && Scan(text, false)[k].Link? && Scan(text, false)[k].target == target {
      assert Content(d) == text;
    }
  }

  lemma ScanNothing()
    ensures Scan("", false) == []
  {
  }

  lemma {:induction false} AbsoluteSlugsExact(targets: seq<string>, slug: string)
    ensures slug in AbsoluteSlugs(targets) <==> slug != "" && exists t :: t in targets && AbsoluteSlug(t) == slug
  {
    hide AbsoluteSlug;
    if targets != [] {
      AbsoluteSlugsExact(targets[..|targets| - 1], slug);
      assert targets == targets[..|targets| - 1] + [targets[|targets| - 1]];
    }
  }

  lemma {:induction false} BareSlugsExact(targets: seq<string>, slug: string)
    ensures slug in BareSlugs(targets) <==> IsSlug(slug) && exists t :: t in targets && Path(t) == slug
  {
    hide Path, IsSlug;
    if targets != [] {
      BareSlugsExact(targets[..|targets| - 1], slug);
      assert targets == targets[..|targets| - 1] + [targets[|targets| - 1]];
    }
  }

  lemma SlugsOfDoc(d: Doc, slug: string)
    ensures slug in AbsoluteSlugs(DocTargets(d)) <==> AbsoluteTo(d, slug)
    ensures slug in BareSlugs(DocTargets(d)) <==> BareTo(d, slug)
  {
    hide DocTargets, AbsoluteSlugs, BareSlugs, LinksTo, AbsoluteSlug, Path, IsSlug;
    AbsoluteSlugsExact(DocTargets(d), slug);
    BareSlugsExact(DocTargets(d), slug);
    forall t ensures t in DocTargets(d) <==> LinksTo(d, t) {
      TargetsAreLinks(d, t);
    }
  }

  lemma {:induction false} MissingExact(i: nat, slugs: seq<string>, known: set<string>, e: LinkError)
    ensures e in Missing(i, slugs, known) <==> e.AbsoluteMissing? && e.doc == i && e.slug in slugs && e.slug !in known
  {
    if slugs != [] {
      MissingExact(i, slugs[..|slugs| - 1], known, e);
      assert slugs == slugs[..|slugs| - 1] + [slugs[|slugs| - 1]];
    }
  }

  lemma {:induction false} BareErrorsExact(i: nat, slugs: seq<string>, known: set<string>, e: LinkError)
    ensures e in BareErrors(i, slugs, known) <==>
              !e.AbsoluteMissing? && e.doc == i && e.slug in slugs && (e.BareKnown? <==> e.slug in known)
  {
    if slugs != [] {
      BareErrorsExact(i, slugs[..|slugs| - 1], known, e);
      assert slugs == slugs[..|slugs| - 1] + [slugs[|slugs| - 1]];
    }
  }

  lemma {:induction false} ErrorsOfExact(docs: seq<Doc>, known: set<string>, e: LinkError)
    ensures e in ErrorsOf(docs, known) <==> exists i :: 0 <= i < |docs| && e.doc == i + 1 && e in DocErrors(i + 1, docs[i], known)
  {
    hide DocErrors;
    if docs != [] {
      var n := |docs| - 1;
      ErrorsOfExact(docs[..n], known, e);
      DocNumber(n + 1, docs[n], known, e);
      assert docs == docs[..n] + [docs[n]];
    }
  }

  lemma DocNumber(i: nat, d: Doc, known: set<string>, e: LinkError)
    ensures e in DocErrors(i, d, known) ==> e.doc == i
  {
    hide DocTargets, AbsoluteSlugs, BareSlugs;
    MissingExact(i, AbsoluteSlugs(DocTargets(d)), known, e);
    BareErrorsExact(i, BareSlugs(DocTargets(d)), known, e);
  }

  /** What justifies an error. */
  ghost predicate Justified(docs: seq<Doc>, registered: set<string>, e: LinkError) {
    && 1 <= e.doc <= |docs|
    && match e
       case AbsoluteMissing(i, slug) => AbsoluteTo(docs[i - 1], slug) && !Resolves(docs, registered, slug)
       case BareKnown(i, slug) => BareTo(docs[i - 1], slug) && Resolves(docs, registered, slug)
       case BareUnknown(i, slug) => BareTo(docs[i - 1], slug) && !Resolves(docs, registered, slug)
  }

  /** The errors are exactly the justified ones. */
  lemma ErrorsExactly(docs: seq<Doc>, registered: set<string>, e: LinkError)
    ensures e in Errors(docs, registered) <==> Justified(docs, registered, e)
  {
    hide DocTargets, AbsoluteSlugs, BareSlugs, Known, AbsoluteTo, BareTo, Resolves, Missing, BareErrors;
    var known := Known(docs, registered);
    ErrorsOfExact(docs, known, e);
    KnownResolves(docs, registered, e.slug);
    if 1 <= e.doc <= |docs| {
      var d := docs[e.doc - 1];
      MissingExact(e.doc, AbsoluteSlugs(DocTargets(d)), known, e);
      BareErrorsExact(e.doc, BareSlugs(DocTargets(d)), known, e);
      SlugsOfDoc(d, e.slug);
      assert e in Errors(docs, registered) <==> e in DocErrors(e.doc, d, known);
    }
  }

  /** The release is fixable exactly if some bare link names a document that can be found. */
  lemma FixableExactly(docs: seq<Doc>, registered: set<string>)
    ensures IsFixable(docs, registered) <==>
              exists i, slug :: 0 <= i < |docs| && BareTo(docs[i], slug) && Resolves(docs, registered, slug)
  {
    hide DocTargets, BareSlugs, Known, BareTo, Resolves;
    var known := Known(docs, registered);
    if i :| 0 <= i < |docs| && KnownBare(docs[i], known) != {} {
      var slug :| slug in KnownBare(docs[i], known);
      SlugsOfDoc(docs[i], slug);
      KnownResolves(docs, registered, slug);
    }
    if i, slug :| 0 <= i < |docs| && BareTo(docs[i], slug) && Resolves(docs, registered, slug) {
      SlugsOfDoc(docs[i], slug);
      KnownResolves(docs, registered, slug);
      assert slug in KnownBare(docs[i], known);
    }
  }

  /** The fix rewrites a link exactly if it is bare and its document can be found; it keeps the slug of the document, its
      format, every other token, and the text, fragment and query of the link. */
  lemma FixRewritesExactly(docs: seq<Doc>, registered: set<string>, i: nat, text: string, k: nat)
    requires i < |docs| && HasText(docs[i], text) && k < |Scan(text, false)|
    ensures var d, before := Fixed(docs, registered)[i], Scan(text, false);
            && d.slug == docs[i].slug && d.body.Some? && d.body.value.format == "md" && d.body.value.content.Some?
            && var after := Scan(d.body.value.content.value, false);
            && |after| == |before|
            && match before[k]
               case Plain(c) => after[k] == Plain(c)
               case Link(caption, target) =>
                 after[k] == Link(caption, if IsSlug(Path(target)) && Resolves(docs, registered, Path(target))
                                         then "/docs/" + Path(target) + Suffix(target) else target)
  {
    hide FixedDoc, Scan, Known, Path, Suffix, IsSlug, Resolves, Render;
    var known := Known(docs, registered);
    assert Content(docs[i]) == text;
    FixKeepsStructure(docs[i], known, k);
    FixedHasText(docs[i], known, text);
    match Scan(text, false)[k]
    case Plain(c) =>
    case Link(caption, target) => KnownResolves(docs, registered, Path(target));
  }

  lemma FixedHasText(d: Doc, known: set<string>, text: string)
    requires HasText(d, text)
    ensures HasText(FixedDoc(d, known), Content(FixedDoc(d, known))) && FixedDoc(d, known).slug == d.slug
  {
  }

  lemma ContentHasText(d: Doc)
    ensures Content(d) != "" ==> HasText(d, Content(d))
  {
  }

  /** A document without a Markdown text is left alone. */
  lemma FixSkipsOthers(docs: seq<Doc>, registered: set<string>, i: nat)
    requires i < |docs| && forall text :: !HasText(docs[i], text)
    ensures Fixed(docs, registered)[i] == docs[i]
  {
    hide Known, BareSlugs, Rewrite, Scan, Targets;
    var d, known := docs[i], Known(docs, registered);
    ContentHasText(d);
    NoTargets();
    assert KnownBare(d, known) == {};
    assert FixedDoc(d, known) == d;
  }

  // ---------- The validation, working on the release in place ----------

  method ExtractAbsoluteSlugs(content: string) returns (slugs: seq<string>)
    ensures slugs == AbsoluteSlugs(Targets(Scan(content, false)))
  {
    hide Scan, Strip, StripBoth, Before;
    slugs := [];
    var targets := Targets(Scan(content, false));
    for i := 0 to |targets|
      invariant slugs == AbsoluteSlugs(targets[..i])
    {
      assert targets[..i + 1][..i] == targets[..i];
      var clean := Path(targets[i]);
      if !(DOCS <= clean) {
        continue;
      }
      var slug := StripSlashes(clean[|DOCS|..]);
      if slug != "" && slug !in slugs {
        slugs := slugs + [slug];
      }
    }
    assert targets[..|targets|] == targets;
  }

  method ExtractBareSlugs(content: string) returns (slugs: seq<string>)
    ensures slugs == BareSlugs(Targets(Scan(content, false)))
  {
    hide Scan, Strip, StripBoth, Before;
    slugs := [];
    var targets := Targets(Scan(content, false));
    for i := 0 to |targets|
      invariant slugs == BareSlugs(targets[..i])
    {
      assert targets[..i + 1][..i] == targets[..i];
      var slug := Path(targets[i]);
      if IsSlug(slug) && slug !in slugs {
        slugs := slugs + [slug];
      }
    }
    assert targets[..|targets|] == targets;
  }

  class ValidDocLinks {
    const registered: set<string>
    var documents: seq<Doc>

    constructor (documents: seq<Doc>, registered: set<string>)
      ensures this.documents == documents && this.registered == registered
    {
      this.documents, this.registered := documents, registered;
    }

    /** The errors of one document. */
    method CheckDocument(number: nat, content: string, known: set<string>) returns (errors: seq<LinkError>)
      ensures var targets := Targets(Scan(content, false));
              errors == Missing(number, AbsoluteSlugs(targets), known) + BareErrors(number, BareSlugs(targets), known)
    {
      hide AbsoluteSlugs, BareSlugs, Targets, Scan;
      errors := [];
      var slugs := ExtractAbsoluteSlugs(content);
      for k := 0 to |slugs|
        invariant errors == Missing(number, slugs[..k], known)
      {
        assert slugs[..k + 1][..k] == slugs[..k];
        if slugs[k] in known {
          continue;
        }
        errors := errors + [AbsoluteMissing(number, slugs[k])];
      }
      assert slugs[..|slugs|] == slugs;
      ghost var before := errors;
      var bare := ExtractBareSlugs(content);
      for k := 0 to |bare|
        invariant errors == before + BareErrors(number, bare[..k], known)
      {
        assert bare[..k + 1][..k] == bare[..k];
        if bare[k] in known {
          errors := errors + [BareKnown(number, bare[k])];
        } else {
          errors := errors + [BareUnknown(number, bare[k])];
        }
      }
      assert bare[..|bare|] == bare;
    }

    method Validate() returns (errors: seq<LinkError>)
      ensures errors == Errors(documents, registered)
    {
      hide Scan, Targets, AbsoluteSlugs, BareSlugs;
      var known := ReleaseSlugs(documents) + registered;
      errors := [];
      for i := 0 to |documents|
        invariant errors == ErrorsOf(documents[..i], known)
      {
        assert documents[..i + 1][..i] == documents[..i];
        var found := CheckDocument(i + 1, Content(documents[i]), known);
        errors := errors + found;
      }
      assert documents[..|documents|] == documents;
    }

    method Fixable() returns (fixable: bool)
      ensures fixable == IsFixable(documents, registered)
    {
      hide Scan, Targets, BareSlugs;
      var known := ReleaseSlugs(documents) + registered;
      for i := 0 to |documents|
        invariant forall j | 0 <= j < i :: KnownBare(documents[j], known) == {}
      {
        var bare := ExtractBareSlugs(Content(documents[i]));
        for k := 0 to |bare|
          invariant forall j | 0 <= j < k :: bare[j] !in known
        {
          if bare[k] in known {
            assert bare[k] in KnownBare(documents[i], known);
            return true;
          }
        }
      }
      return false;
    }

    method Fix()
      modifies this`documents
      ensures documents == Fixed(old(documents), registered)
    {
      hide Scan, Targets, BareSlugs, Rewrite, ReleaseSlugs;
      ghost var before := documents;
      var known := ReleaseSlugs(documents) + registered;
      for i := 0 to |documents|
        invariant |documents| == |before|
        invariant forall j | 0 <= j < i :: documents[j] == FixedDoc(before[j], known)
        invariant forall j | i <= j < |documents| :: documents[j] == before[j]
      {
        var d := documents[i];
        var slugs := ExtractBareSlugs(Content(d));
        var bare := set slug | slug in slugs && slug in known;
        assert bare == KnownBare(d, known);
        if bare == {} || d.body.None? {
          continue;
        }
        documents := documents[i := d.(body := Some(d.body.value.(content := Some(Rewrite(Content(d), false, bare)))))];
      }
    }
  }
}
