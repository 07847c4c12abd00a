/** The link pattern, the slugs in link targets, and the rewriting of a text. */
module LinkPattern {
  import opened Options
  import opened Text

  // ---------- The link pattern ----------

  /** A character of ordinary text, or a whole link. */
  datatype Token = Plain(c: char) | Link(text: string, target: string)

  /** What follows the '[' of a link: the text up to the first ']', then '(' and a nonempty target up to the first ')'. */
  function LinkBody(s: string): (r: Option<(string, string, string)>)
    ensures r.Some? ==> |r.value.2| < |s|
  {
    match Cut(s, ']')
    case None => None
    case Some((text, rest)) =>
      if rest == "" || rest[0] != '(' then None
      else
        match Cut(rest[1..], ')')
        case None => None
        case Some((target, after)) => if target == "" then None else Some((text, target, after))
  }

  /** Left to right and without overlaps; a '[' right after a '!' starts no link. */
  function Scan(s: string, bang: bool): seq<Token>
    decreases |s|
  {
    if s == "" then []
    else if s[0] == '[' && !bang && LinkBody(s[1..]).Some? then
      var (text, target, after) := LinkBody(s[1..]).value;
      [Link(text, target)] + Scan(after, false)
    else [Plain(s[0])] + Scan(s[1..], s[0] == '!')
  }

  function RenderToken(t: Token): string {
    match t
    case Plain(c) => [c]
    case Link(text, target) => "[" + text + "](" + target + ")"
  }

  function Render(tokens: seq<Token>): string {
    if tokens == [] then "" else RenderToken(tokens[0]) + Render(tokens[1..])
  }

  /** The targets of the links, in order. */
  function Targets(tokens: seq<Token>): seq<string> {
    if tokens == [] then []
    else (if tokens[0].Link? then [tokens[0].target] else []) + Targets(tokens[1..])
  }

  // ---------- Slugs ----------

  const DOCS := "/docs/"

  predicate SlugChar(c: char) {
    'A' <= c <= 'Z' || 'a' <= c <= 'z' || '0' <= c <= '9' || c == '_' || c == '-'
  }

  predicate IsSlug(s: string) {
    s != "" && forall c | c in s :: SlugChar(c)
  }

  /** The target without its fragment and query. */
  function Path(target: string): string {
    Before(Before(Strip(target), '#'), '?')
  }

  function Suffix(target: string): string {
    Strip(target)[|Path(target)|..]
  }

  function AbsoluteSlug(target: string): string {
    var path := Path(target);
    if DOCS <= path then StripSlashes(path[|DOCS|..]) else ""
  }

  /** The distinct slugs of the absolute links, in order of first occurrence. */
  function AbsoluteSlugs(targets: seq<string>): seq<string> {
    if targets == [] then []
    else
      var init, slug := AbsoluteSlugs(targets[..|targets| - 1]), AbsoluteSlug(targets[|targets| - 1]);
      if slug != "" && slug !in init then init + [slug] else init
  }

  /** The distinct slugs of the bare links, in order of first occurrence. */
  function BareSlugs(targets: seq<string>): seq<string> {
    if targets == [] then []
    else
      var init, slug := BareSlugs(targets[..|targets| - 1]), Path(targets[|targets| - 1]);
      if IsSlug(slug) && slug !in init then init + [slug] else init
  }

  // ---------- Rewriting ----------

  function NewTarget(target: string, known: set<string>): string {
    if IsSlug(Path(target)) && Path(target) in known then DOCS + Path(target) + Suffix(target) else target
  }

  function RewriteToken(t: Token, known: set<string>): Token {
    match t
    case Plain(c) => t
    case Link(text, target) => Link(text, NewTarget(target, known))
  }

  function RewriteTokens(tokens: seq<Token>, known: set<string>): (r: seq<Token>)
    ensures |r| == |tokens| && forall i | 0 <= i < |tokens| :: r[i] == RewriteToken(tokens[i], known)
  {
    if tokens == [] then [] else [RewriteToken(tokens[0], known)] + RewriteTokens(tokens[1..], known)
  }

  /** The substitution: matches are replaced, everything else is copied. */
  function Rewrite(s: string, bang: bool, known: set<string>): string
    decreases |s|
  {
    if s == "" then ""
    else if s[0] == '[' && !bang && LinkBody(s[1..]).Some? then
      var (text, target, after) := LinkBody(s[1..]).value;
      "[" + text + "](" + NewTarget(target, known) + ")" + Rewrite(after, false, known)
    else [s[0]] + Rewrite(s[1..], s[0] == '!', known)
  }

  // ---------- The pattern is the one intended ----------

  lemma BodyFound(text: string, target: string, after: string)
    requires ']' !in text && target != "" && ')' !in target
    ensures LinkBody(text + "](" + target + ")" + after) == Some((text, target, after))
  {
    var rest := "(" + target + ")" + after;
    assert text + "](" + target + ")" + after == text + [']'] + rest;
    CutJoined(text, ']', rest);
    assert rest[1..] == target + [')'] + after;
    CutJoined(target, ')', after);
  }

  lemma Assemble(text: string, target: string, after: string)
    ensures text + [']'] + (['('] + (target + [')'] + after)) == text + "](" + target + ")" + after
  {
  }

  lemma BodyShape(s: string)
    requires LinkBody(s).Some?
    ensures var (text, target, after) := LinkBody(s).value;
            ']' !in text && target != "" && ')' !in target && s == text + "](" + target + ")" + after
  {
    hide Cut;
    var (text, target, after) := LinkBody(s).value;
    var rest := Cut(s, ']').value.1;
    assert rest == ['('] + rest[1..];
    Assemble(text, target, after);
  }

  /** A link body is recognised exactly if the text has this shape. */
  lemma LinkBodyExact(s: string, text: string, target: string, after: string)
    ensures LinkBody(s) == Some((text, target, after)) <==>
              ']' !in text && target != "" && ')' !in target && s == text + "](" + target + ")" + after
  {
    hide LinkBody;
    if ']' !in text && target != "" && ')' !in target {
      BodyFound(text, target, after);
    }
    if LinkBody(s).Some? {
      BodyShape(s);
    }
  }

  lemma RewriteCons(t: Token, rest: seq<Token>, known: set<string>)
    ensures RewriteTokens([t] + rest, known) == [RewriteToken(t, known)] + RewriteTokens(rest, known)
  {
    assert ([t] + rest)[1..] == rest;
  }

  lemma {:induction false} RewriteRenders(s: string, bang: bool, known: set<string>)
    ensures Rewrite(s, bang, known) == Render(RewriteTokens(Scan(s, bang), known))
    decreases |s|
  {
    if s != "" {
      hide RewriteTokens, NewTarget, LinkBody;
      if s[0] == '[' && !bang && LinkBody(s[1..]).Some? {
        var (text, target, after) := LinkBody(s[1..]).value;
        RewriteCons(Link(text, target), Scan(after, false), known);
        RewriteRenders(after, false, known);
      } else {
        RewriteCons(Plain(s[0]), Scan(s[1..], s[0] == '!'), known);
        RewriteRenders(s[1..], s[0] == '!', known);
      }
    }
  }

  // ---------- Rescanning the rewritten text ----------

  lemma BodyCloses(s: string)
    requires ')' !in s
    ensures LinkBody(s).None?
  {
  }

  lemma {:induction false} NoLinks(s: string, bang: bool, known: set<string>)
    requires ')' !in s
    ensures Rewrite(s, bang, known) == s
    decreases |s|
  {
    if s != "" {
      BodyCloses(s[1..]);
      NoLinks(s[1..], s[0] == '!', known);
    }
  }

  /** The first character is never touched. */
  lemma RewriteHead(s: string, bang: bool, known: set<string>)
    ensures s == "" <==> Rewrite(s, bang, known) == ""
    ensures s != "" ==> Rewrite(s, bang, known)[0] == s[0]
  {
  }

  /** A '[' that started no link still starts none when what follows has been rewritten. */
  lemma {:induction false} StillNoLink(s: string, bang: bool, known: set<string>)
    requires LinkBody(s).None?
    ensures LinkBody(Rewrite(s, bang, known)).None?
    decreases |s|
  {
    if s != "" {
      var r := Rewrite(s, bang, known);
      if s[0] == ']' {
        var rest := s[1..];
        assert Cut(s, ']') == Some(("", rest));
        var rest' := Rewrite(rest, false, known);
        assert r == [']'] + rest';
        assert Cut(r, ']') == Some(("", rest')) by {
          assert r[1..] == rest';
        }
        RewriteHead(rest, false, known);
        if rest != "" && rest[0] == '(' {
          var inner := rest[1..];
          assert rest' == ['('] + Rewrite(inner, false, known);
          assert rest'[1..] == Rewrite(inner, false, known);
          if ')' !in inner {
            NoLinks(inner, false, known);
          } else {
            assert Cut(inner, ')').value.0 == "";
            RewriteHead(inner, false, known);
            assert inner[0] == ')';
          }
        }
      } else {
        BodyShift(s[0], s[1..]);
        assert s == [s[0]] + s[1..];
        StillNoLink(s[1..], s[0] == '!', known);
        var r1 := Rewrite(s[1..], s[0] == '!', known);
        assert r == [s[0]] + r1;
        BodyShift(s[0], r1);
      }
    }
  }

  lemma BodyShift(c: char, s: string)
    requires c != ']'
    ensures LinkBody([c] + s).None? <==> LinkBody(s).None?
  {
    assert ([c] + s)[1..] == s;
  }

  lemma TargetParts(target: string)
    ensures Strip(target) == Path(target) + Suffix(target)
    ensures forall c | c in Path(target) + Suffix(target) :: c in target
    ensures '#' !in Path(target) && '?' !in Path(target)
    ensures Suffix(target) == "" || Suffix(target)[0] == '#' || Suffix(target)[0] == '?'
  {
    hide Strip;
    var raw, first, path := Strip(target), Before(Strip(target), '#'), Path(target);
    assert raw[..|path|] == path;
    assert forall c | c in path :: c in first;
    assert forall c | c in Strip(target) :: c in target by { StripKeeps(target); }
  }

  lemma StripKeeps(s: string)
    ensures forall c | c in Strip(s) :: c in s
  {
  }

  /** A rewritten target is a target. */
  lemma NewTargetFits(target: string, known: set<string>)
    requires target != "" && ')' !in target
    ensures NewTarget(target, known) != "" && ')' !in NewTarget(target, known)
  {
    hide Path, Suffix, IsSlug;
    TargetParts(target);
  }

  lemma ScanLink(text: string, target: string, after: string)
    requires ']' !in text && target != "" && ')' !in target
    ensures Scan("[" + text + "](" + target + ")" + after, false) == [Link(text, target)] + Scan(after, false)
  {
    hide LinkBody;
    var s := "[" + text + "](" + target + ")" + after;
    assert s[1..] == text + "](" + target + ")" + after;
    LinkBodyExact(s[1..], text, target, after);
  }

  lemma ScanPlain(c: char, rest: string, bang: bool)
    requires c == '[' && !bang ==> LinkBody(rest).None?
    ensures Scan([c] + rest, bang) == [Plain(c)] + Scan(rest, c == '!')
  {
    hide LinkBody;
    assert ([c] + rest)[1..] == rest;
  }

  lemma StillNoLinkOr(c: char, rest: string, bang: bool, known: set<string>)
    requires c == '[' && !bang ==> LinkBody(rest).None?
    ensures c == '[' && !bang ==> LinkBody(Rewrite(rest, c == '!', known)).None?
  {
    if c == '[' && !bang {
      StillNoLink(rest, false, known);
    }
  }

  lemma RewriteLink(text: string, target: string, after: string, known: set<string>)
    requires ']' !in text && target != "" && ')' !in target
    ensures Rewrite("[" + text + "](" + target + ")" + after, false, known)
         == "[" + text + "](" + NewTarget(target, known) + ")" + Rewrite(after, false, known)
  {
    hide LinkBody, NewTarget;
    var s := "[" + text + "](" + target + ")" + after;
    assert s[1..] == text + "](" + target + ")" + after;
    LinkBodyExact(s[1..], text, target, after);
  }

  lemma RescanLink(text: string, target: string, after: string, known: set<string>)
    requires ']' !in text && target != "" && ')' !in target
    requires Scan(Rewrite(after, false, known), false) == RewriteTokens(Scan(after, false), known)
    ensures var s := "[" + text + "](" + target + ")" + after;
            Scan(Rewrite(s, false, known), false) == RewriteTokens(Scan(s, false), known)
  {
    hide RewriteTokens, NewTarget, LinkBody, Scan, Rewrite;
    ScanLink(text, target, after);
    RewriteLink(text, target, after, known);
    NewTargetFits(target, known);
    ScanLink(text, NewTarget(target, known), Rewrite(after, false, known));
    RewriteCons(Link(text, target), Scan(after, false), known);
  }

  lemma RescanPlain(c: char, rest: string, bang: bool, known: set<string>)
    requires c == '[' && !bang ==> LinkBody(rest).None?
    requires Scan(Rewrite(rest, c == '!', known), c == '!') == RewriteTokens(Scan(rest, c == '!'), known)
    ensures Scan(Rewrite([c] + rest, bang, known), bang) == RewriteTokens(Scan([c] + rest, bang), known)
  {
    hide RewriteTokens, LinkBody, Scan;
    ScanPlain(c, rest, bang);
    RewriteCons(Plain(c), Scan(rest, c == '!'), known);
    StillNoLinkOr(c, rest, bang, known);
    ScanPlain(c, Rewrite(rest, c == '!', known), bang);
    assert ([c] + rest)[1..] == rest;
  }

  /** Rescanning the rewritten text finds the same links at the same places, with the rewritten targets. */
  lemma {:induction false} RescanRewritten(s: string, bang: bool, known: set<string>)
    ensures Scan(Rewrite(s, bang, known), bang) == RewriteTokens(Scan(s, bang), known)
    decreases |s|
  {
    hide RewriteTokens, NewTarget, LinkBody, Scan, Rewrite;
    if s == "" {
      RescanEmpty(bang, known);
    } else if s[0] == '[' && !bang && LinkBody(s[1..]).Some? {
      var (text, target, after) := LinkBody(s[1..]).value;
      LinkBodyExact(s[1..], text, target, after);
      RescanRewritten(after, false, known);
      RescanLink(text, target, after, known);
      assert s == "[" + text + "](" + target + ")" + after;
    } else {
      RescanRewritten(s[1..], s[0] == '!', known);
      RescanPlain(s[0], s[1..], bang, known);
      assert s == [s[0]] + s[1..];
    }
  }

  lemma RescanEmpty(bang: bool, known: set<string>)
    ensures Scan(Rewrite("", bang, known), bang) == RewriteTokens(Scan("", bang), known)
  {
  }

  lemma RenderCons(t: Token, rest: seq<Token>)
    ensures Render([t] + rest) == RenderToken(t) + Render(rest)
  {
    assert ([t] + rest)[1..] == rest;
  }

  /** The tokens are the text: nothing is lost. */
  lemma {:induction false} RenderScan(s: string, bang: bool)
    ensures Render(Scan(s, bang)) == s
    decreases |s|
  {
    hide LinkBody, Render, Scan;
    if s == "" {
      RenderNothing(bang);
    } else if s[0] == '[' && !bang && LinkBody(s[1..]).Some? {
      var (text, target, after) := LinkBody(s[1..]).value;
      BodyShape(s[1..]);
      assert s == "[" + s[1..] == "[" + text + "](" + target + ")" + after;
      RenderScan(after, false);
      ScanLink(text, target, after);
      RenderCons(Link(text, target), Scan(after, false));
    } else {
      assert s == [s[0]] + s[1..];
      RenderScan(s[1..], s[0] == '!');
      ScanPlain(s[0], s[1..], bang);
      RenderCons(Plain(s[0]), Scan(s[1..], s[0] == '!'));
    }
  }

  lemma RenderNothing(bang: bool)
    ensures Render(Scan("", bang)) == ""
  {
  }

  // ---------- What the tokens and the parts of a target are ----------

  /** A link follows no '!' and is closed by its first brackets; a '[' on its own follows a '!' or starts no link. */
  ghost predicate Placed(tokens: seq<Token>, k: nat, bang: bool)
    requires k < |tokens|
  {
    var banged := if k == 0 then bang else tokens[k - 1] == Plain('!');
    match tokens[k]
    case Link(text, target) => !banged && ']' !in text && target != "" && ')' !in target
    case Plain(c) =>
      c == '[' && !banged ==>
        forall text, target, after | Render(tokens[k + 1..]) == text + "](" + target + ")" + after ::
          ']' in text || target == "" || ')' in target
  }

  lemma StartsNoLink(s: string, text: string, target: string, after: string)
    requires LinkBody(s).None? && s == text + "](" + target + ")" + after
    ensures ']' in text || target == "" || ')' in target
  {
    LinkBodyExact(s, text, target, after);
  }

  /** Scanning is left to right: every token is placed so (and, by RenderScan, they are the text). */
  lemma {:induction false} ScanPlaces(s: string, bang: bool, k: nat)
    requires k < |Scan(s, bang)|
    ensures Placed(Scan(s, bang), k, bang)
    decreases |s|
  {
    hide LinkBody, Render;
    var tokens := Scan(s, bang);
    if s[0] == '[' && !bang && LinkBody(s[1..]).Some? {
      var (text, target, after) := LinkBody(s[1..]).value;
      BodyShape(s[1..]);
      if k > 0 {
        ScanPlaces(after, false, k - 1);
        PlacedLater(tokens, Scan(after, false), k, bang);
      }
    } else if k > 0 {
      ScanPlaces(s[1..], s[0] == '!', k - 1);
      PlacedLater(tokens, Scan(s[1..], s[0] == '!'), k, bang);
    } else {
      RenderScan(s[1..], s[0] == '!');
      assert tokens[1..] == Scan(s[1..], s[0] == '!');
      forall text, target, after | Render(tokens[1..]) == text + "](" + target + ")" + after && s[0] == '[' && !bang
        ensures ']' in text || target == "" || ')' in target {
        StartsNoLink(s[1..], text, target, after);
      }
    }
  }

  lemma PlacedLater(tokens: seq<Token>, rest: seq<Token>, k: nat, bang: bool)
    requires 0 < k < |tokens| && tokens[1..] == rest && Placed(rest, k - 1, tokens[0] == Plain('!'))
    ensures Placed(tokens, k, bang)
  {
    hide Render;
    assert rest[k..] == tokens[k + 1..];
    assert k > 1 ==> rest[k - 2] == tokens[k - 1];
  }

  /** The path of a target runs from its first character that is not a space up to a '#', a '?', or the spaces at the end;
      the suffix is what remains before those spaces. */
  lemma PathExact(target: string) returns (i: nat, j: nat)
    ensures Trimmed(target, i, j, SPACES)
    ensures var n := i + |Path(target)|;
            && n <= j && Path(target) == target[i..n] && Suffix(target) == target[n..j]
            && '#' !in Path(target) && '?' !in Path(target) && (n < j ==> target[n] == '#' || target[n] == '?')
  {
    hide Strip;
    i, j := StripExact(target);
    var raw, path := target[i..j], Path(target);
    assert raw[..|path|] == path;
    assert target[i..i + |path|] == raw[..|path|];
    assert target[i + |path|..j] == raw[|path|..];
  }

  /** The slug of an absolute target is what follows "/docs/", without the slashes around it. */
  lemma AbsoluteSlugExact(target: string) returns (i: nat, j: nat)
    ensures var path := Path(target);
            if "/docs/" <= path then Trimmed(path[6..], i, j, {'/'}) && AbsoluteSlug(target) == path[6..][i..j]
            else AbsoluteSlug(target) == ""
  {
    hide Path, StripSlashes;
    i, j := 0, 0;
    if "/docs/" <= Path(target) {
      i, j := StripSlashesExact(Path(target)[6..]);
    }
  }

  const UPPER :=
    {'A', 'B', 'C', 'D', 'E', 'F', 'G', 'H', 'I', 'J', 'K', 'L', 'M', 'N', 'O', 'P', 'Q', 'R', 'S', 'T', 'U', 'V', 'W',
     'X', 'Y', 'Z'}

  const LOWER :=
    {'a', 'b', 'c', 'd', 'e', 'f', 'g', 'h', 'i', 'j', 'k', 'l', 'm', 'n', 'o', 'p', 'q', 'r', 's', 't', 'u', 'v', 'w',
     'x', 'y', 'z'}

  const DIGITS := {'0', '1', '2', '3', '4', '5', '6', '7', '8', '9'}

  lemma Ranges(c: char)
    ensures c in UPPER <==> 'A' <= c <= 'Z'
    ensures c in LOWER <==> 'a' <= c <= 'z'
    ensures c in DIGITS <==> '0' <= c <= '9'
  {
  }

  /** A slug is one or more of these characters. */
  lemma IsSlugExact(s: string)
    ensures IsSlug(s) <==> s != "" && forall k | 0 <= k < |s| :: s[k] in UPPER + LOWER + DIGITS + {'_', '-'}
  {
    hide UPPER, LOWER, DIGITS;
    forall c: char ensures SlugChar(c) <==> c in UPPER + LOWER + DIGITS + {'_', '-'} {
      Ranges(c);
    }
    hide SlugChar;
  }
}
