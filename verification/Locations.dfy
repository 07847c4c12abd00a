/** Actions of the cold storage (the enumeration shared by every cold-storage module). */
module ColdTypes {
  datatype Action = Stage | Archive | ClearHot
}

/** Translation of URLs between hot and cold storage, driven by the table of locations. */
module Locations {
  import opened Options
  import opened ColdTypes

  datatype Location = Location(coldPath: string, hotPath: string)

  // The column that is matched, and the column that replaces it.
  function SourcePath(l: Location, action: Action): string {
    if action.Stage? then l.coldPath else l.hotPath
  }

  function TargetPath(l: Location, action: Action): string {
    if action.Stage? then l.hotPath else l.coldPath
  }

  /** The most specific location whose source path starts the URL. */
  function BestMatch(locations: seq<Location>, action: Action, url: string): (r: Option<Location>)
    ensures r.None? <==> forall l | l in locations :: !(SourcePath(l, action) <= url)
    ensures r.Some? ==>
              && r.value in locations
              && SourcePath(r.value, action) <= url
              && forall l | l in locations && SourcePath(l, action) <= url ::
                |SourcePath(l, action)| <= |SourcePath(r.value, action)|
  {
    if locations == [] then None
    else
      var rest := BestMatch(locations[1..], action, url);
      var first := SourcePath(locations[0], action);
      if first <= url && (rest.None? || |SourcePath(rest.value, action)| <= |first|)
      then Some(locations[0])
      else rest
  }

  /** Substitution of every occurrence, left to right and without overlaps.
      An empty pattern matches before every character and at the end. */
  function ReplaceAll(s: string, pattern: string, target: string): string
    decreases |s|
  {
    if pattern == "" then
      if s == "" then target else target + [s[0]] + ReplaceAll(s[1..], pattern, target)
    else if |s| < |pattern| then s
    else if pattern <= s then target + ReplaceAll(s[|pattern|..], pattern, target)
    else [s[0]] + ReplaceAll(s[1..], pattern, target)
  }

  /** The URL a file should have on the other side of the transfer. */
  function FindUrl(locations: seq<Location>, action: Action, url: string): Option<string> {
    match BestMatch(locations, action, url)
    case None => None
    case Some(l) => Some(ReplaceAll(url, SourcePath(l, action), TargetPath(l, action)))
  }

  // ---------- Round trip ----------

  predicate Occurs(s: string, pattern: string) {
    exists i | 0 <= i <= |s| :: pattern <= s[i..]
  }

  lemma {:induction false} ReplaceAbsent(s: string, pattern: string, target: string)
    requires !Occurs(s, pattern)
    ensures ReplaceAll(s, pattern, target) == s
    decreases |s|
  {
    assert s[0..] == s && s[|s|..] == "";
    if |s| >= |pattern| && s != "" {
      forall i | 0 <= i <= |s[1..]| ensures !(pattern <= s[1..][i..]) {
        assert s[1..][i..] == s[i + 1..];
      }
      ReplaceAbsent(s[1..], pattern, target);
      assert !(pattern <= s[0..]);
    }
  }

  lemma ReplacePrefixOnly(url: string, pattern: string, target: string)
    requires pattern <= url && !Occurs(url[|pattern|..], pattern)
    ensures pattern != "" && ReplaceAll(url, pattern, target) == target + url[|pattern|..]
  {
    var rest := url[|pattern|..];
    assert rest[|rest|..] == "";
    assert pattern != "";
    ReplaceAbsent(rest, pattern, target);
  }

  lemma {:induction false} ReplaceLength(s: string, pattern: string, target: string)
    requires pattern != ""
    ensures |pattern| <= |target| ==> |s| <= |ReplaceAll(s, pattern, target)|
    ensures |target| <= |pattern| ==> |ReplaceAll(s, pattern, target)| <= |s|
    decreases |s|
  {
    if |s| >= |pattern| {
      ReplaceLength(s[if pattern <= s then |pattern| else 1..], pattern, target);
    }
  }

  /** A replacement with another text changes every string in which the pattern occurs. */
  lemma {:induction false} ReplaceChanges(s: string, pattern: string, target: string)
    requires pattern != "" && pattern != target && Occurs(s, pattern)
    ensures ReplaceAll(s, pattern, target) != s
    decreases |s|
  {
    var i :| 0 <= i <= |s| && pattern <= s[i..];
    if pattern <= s {
      ReplaceLength(s[|pattern|..], pattern, target);
      assert |target| == |pattern| ==> ReplaceAll(s, pattern, target)[..|pattern|] == target != s[..|pattern|];
    } else {
      assert s[0..] == s;
      assert s[1..][i - 1..] == s[i..];
      ReplaceChanges(s[1..], pattern, target);
      assert ReplaceAll(s, pattern, target)[1..] == ReplaceAll(s[1..], pattern, target);
    }
  }

  lemma {:induction false} ReplaceNothing(s: string, target: string)
    ensures |ReplaceAll(s, "", target)| >= |s| + |target| + if s == "" then 0 else |target|
    decreases |s|
  {
    if s != "" {
      ReplaceNothing(s[1..], target);
    }
  }

  /** What staging leaves of the part behind the cold path. */
  predicate Intact(l: Location, rest: string) {
    l.coldPath == l.hotPath || if l.coldPath == "" then rest == "" else !Occurs(rest, l.coldPath)
  }

  lemma ReplaceAtStart(pattern: string, rest: string, target: string)
    requires pattern != ""
    ensures ReplaceAll(pattern + rest, pattern, target) == target + ReplaceAll(rest, pattern, target)
  {
    assert (pattern + rest)[|pattern|..] == rest;
  }

  lemma CancelPrefix(prefix: string, a: string, b: string)
    ensures prefix + a == prefix + b <==> a == b
  {
    assert (prefix + a)[|prefix|..] == a && (prefix + b)[|prefix|..] == b;
  }

  lemma ReplaceBack(l: Location, rest: string)
    requires l.hotPath != ""
    ensures ReplaceAll(l.coldPath + rest, l.coldPath, l.hotPath) == l.hotPath + rest <==> Intact(l, rest)
  {
    if l.coldPath == "" {
      assert l.coldPath + rest == rest;
      ReplaceNothing(rest, l.hotPath);
    } else {
      hide ReplaceAll, Occurs;
      ReplaceAtStart(l.coldPath, rest, l.hotPath);
      ReplaceKeepsExactly(rest, l.coldPath, l.hotPath);
      CancelPrefix(l.hotPath, ReplaceAll(rest, l.coldPath, l.hotPath), rest);
    }
  }

  lemma ReplaceKeepsExactly(s: string, pattern: string, target: string)
    requires pattern != ""
    ensures ReplaceAll(s, pattern, target) == s <==> pattern == target || !Occurs(s, pattern)
  {
    if pattern == target {
      ReplaceItself(s, pattern);
    } else if Occurs(s, pattern) {
      ReplaceChanges(s, pattern, target);
    } else {
      ReplaceAbsent(s, pattern, target);
    }
  }

  lemma {:induction false} ReplaceItself(s: string, pattern: string)
    requires pattern != ""
    ensures ReplaceAll(s, pattern, pattern) == s
    decreases |s|
  {
    if |s| >= |pattern| {
      ReplaceItself(s[if pattern <= s then |pattern| else 1..], pattern);
    }
  }

  /** Archiving exchanges the matched hot path, if it does not occur again. If no other location takes the match on
      the way back, staging returns the hot URL exactly when the cold path does not occur again either. */
  lemma ArchiveThenStageReturns(locations: seq<Location>, hot: string, l: Location)
    requires BestMatch(locations, Archive, hot) == Some(l) && !Occurs(hot[|l.hotPath|..], l.hotPath)
    ensures var cold := l.coldPath + hot[|l.hotPath|..];
            && FindUrl(locations, Archive, hot) == Some(cold)
            && (BestMatch(locations, Stage, cold) == Some(l) ==>
                  (FindUrl(locations, Stage, cold) == Some(hot) <==> Intact(l, hot[|l.hotPath|..])))
  {
    hide ReplaceAll, Occurs, Intact;
    var rest := hot[|l.hotPath|..];
    ReplacePrefixOnly(hot, l.hotPath, l.coldPath);
    assert hot == l.hotPath + rest;
    ReplaceBack(l, rest);
  }

  lemma ReplaceSkip(s: string, pattern: string, target: string)
    requires pattern != "" && s != "" && !(pattern <= s)
    ensures ReplaceAll(s, pattern, target) == [s[0]] + ReplaceAll(s[1..], pattern, target)
  {
    assert s == [s[0]] + s[1..];
  }

  /** In the archived text, no cold path begins at a character that was kept. */
  predicate NoneBegins(s: string, hotPath: string, coldPath: string)
    requires hotPath != ""
    decreases |s|
  {
    s == ""
    || if hotPath <= s then NoneBegins(s[|hotPath|..], hotPath, coldPath)
       else !(coldPath <= ReplaceAll(s, hotPath, coldPath)) && NoneBegins(s[1..], hotPath, coldPath)
  }

  lemma {:induction false} ReplaceThereAndBack(s: string, hotPath: string, coldPath: string)
    requires hotPath != "" && coldPath != ""
    ensures ReplaceAll(ReplaceAll(s, hotPath, coldPath), coldPath, hotPath) == s <==> NoneBegins(s, hotPath, coldPath)
    decreases |s|
  {
    hide ReplaceAll;
    var there := ReplaceAll(s, hotPath, coldPath);
    if s == "" {
      assert there == "" && ReplaceAll("", coldPath, hotPath) == "" by { ReplaceEmpty(hotPath, coldPath); }
    } else if hotPath <= s {
      var rest := s[|hotPath|..];
      ReplaceThereAndBack(rest, hotPath, coldPath);
      assert s == hotPath + rest;
      ReplaceAtStart(hotPath, rest, coldPath);
      ReplaceAtStart(coldPath, ReplaceAll(rest, hotPath, coldPath), hotPath);
      CancelPrefix(hotPath, ReplaceAll(ReplaceAll(rest, hotPath, coldPath), coldPath, hotPath), rest);
    } else {
      ReplaceThereAndBack(s[1..], hotPath, coldPath);
      ReplaceSkip(s, hotPath, coldPath);
      if coldPath <= there {
        assert there == coldPath + there[|coldPath|..];
        ReplaceAtStart(coldPath, there[|coldPath|..], hotPath);
      } else {
        ReplaceSkip(there, coldPath, hotPath);
        assert there[1..] == ReplaceAll(s[1..], hotPath, coldPath);
        assert s == [s[0]] + s[1..];
        CancelPrefix([s[0]], ReplaceAll(there[1..], coldPath, hotPath), s[1..]);
      }
    }
  }

  lemma ReplaceEmpty(hotPath: string, coldPath: string)
    requires hotPath != "" && coldPath != ""
    ensures ReplaceAll("", hotPath, coldPath) == "" && ReplaceAll("", coldPath, hotPath) == ""
  {
  }

  /** The round trip also where the hot path occurs again: if no other location takes the match on the way back, staging
      returns the hot URL exactly when the exchange made no cold path begin at a character that was kept. */
  lemma RepeatedHotPathExactly(locations: seq<Location>, hot: string, l: Location)
    requires BestMatch(locations, Archive, hot) == Some(l) && l.hotPath != "" && l.coldPath != ""
    ensures var cold := FindUrl(locations, Archive, hot).value;
            BestMatch(locations, Stage, cold) == Some(l) ==>
              (FindUrl(locations, Stage, cold) == Some(hot) <==> NoneBegins(hot, l.hotPath, l.coldPath))
  {
    hide ReplaceAll, NoneBegins;
    ReplaceThereAndBack(hot, l.hotPath, l.coldPath);
  }

  /** No cold path starts another one, or is used twice: a caller can read this off the table. */
  ghost predicate PrefixFreeCold(locations: seq<Location>) {
    forall l, m | l in locations && m in locations && l.coldPath <= m.coldPath :: l == m
  }

  lemma LongerPrefix(a: string, b: string, s: string)
    requires a <= s && b <= s && |a| <= |b|
    ensures a <= b
  {
    assert a == s[..|a|] && b == s[..|b|] && s[..|b|][..|a|] == s[..|a|];
  }

  lemma OnlyMatch(locations: seq<Location>, cold: string, l: Location)
    requires PrefixFreeCold(locations) && l in locations && l.coldPath <= cold
    ensures BestMatch(locations, Stage, cold) == Some(l)
  {
    assert SourcePath(l, Stage) <= cold;
    var m := BestMatch(locations, Stage, cold).value;
    LongerPrefix(l.coldPath, m.coldPath, cold);
  }

  /** On such a table no other location takes the match, so that the condition above alone decides. */
  lemma PrefixFreeRoundTrip(locations: seq<Location>, hot: string, l: Location)
    requires PrefixFreeCold(locations)
    requires BestMatch(locations, Archive, hot) == Some(l) && l.hotPath != "" && l.coldPath != ""
    ensures var cold := FindUrl(locations, Archive, hot).value;
            FindUrl(locations, Stage, cold) == Some(hot) <==> NoneBegins(hot, l.hotPath, l.coldPath)
  {
    hide ReplaceAll, NoneBegins, PrefixFreeCold;
    var rest := hot[|l.hotPath|..];
    assert hot == l.hotPath + rest;
    ReplaceAtStart(l.hotPath, rest, l.coldPath);
    OnlyMatch(locations, ReplaceAll(hot, l.hotPath, l.coldPath), l);
    RepeatedHotPathExactly(locations, hot, l);
  }

  /** Another location that takes the match on the way back never leads back, unless its own cold path is repeated. */
  lemma OtherLocationStrands(locations: seq<Location>, hot: string, l: Location, m: Location)
    requires BestMatch(locations, Archive, hot) == Some(l)
    requires BestMatch(locations, Stage, l.coldPath + hot[|l.hotPath|..]) == Some(m) && m != l
    requires !Occurs((l.coldPath + hot[|l.hotPath|..])[|m.coldPath|..], m.coldPath)
    ensures FindUrl(locations, Stage, l.coldPath + hot[|l.hotPath|..]) != Some(hot)
  {
    hide ReplaceAll, Occurs;
    var cold := l.coldPath + hot[|l.hotPath|..];
    ReplacePrefixOnly(cold, m.coldPath, m.hotPath);
    assert SourcePath(l, Stage) <= cold;
    var back := m.hotPath + cold[|m.coldPath|..];
    assert |back| == |m.hotPath| + |cold| - |m.coldPath|;
    assert back == hot ==> SourcePath(m, Archive) <= hot;
  }

  /** With its cold path repeated it can lead back: here the two locations share a cold path. */
  lemma OtherLocationCanReturn()
    ensures var shared := [Location("k", "ak"), Location("k", "aka")];
            && BestMatch(shared, Archive, "akak") == Some(shared[1]) && FindUrl(shared, Archive, "akak") == Some("kk")
            && BestMatch(shared, Stage, "kk") == Some(shared[0]) && FindUrl(shared, Stage, "kk") == Some("akak")
  {
    var shared := [Location("k", "ak"), Location("k", "aka")];
    assert shared[1..] == [Location("k", "aka")] && shared[1..][1..] == [];
    assert "aka" + "k" == "akak" && "k" + "k" == "kk";
    calc {
      ReplaceAll("akak", "aka", "k");
      { ReplaceAtStart("aka", "k", "k"); }
      "k" + ReplaceAll("k", "aka", "k");
      "kk";
    }
    calc {
      ReplaceAll("kk", "k", "ak");
      { ReplaceAtStart("k", "k", "ak"); }
      "ak" + ReplaceAll("k", "k", "ak");
      { assert "k" + "" == "k"; ReplaceAtStart("k", "", "ak"); }
      "ak" + ("ak" + ReplaceAll("", "k", "ak"));
      "akak";
    }
  }

  /** A cold path repeated inside the URL breaks the round trip, and so do nested cold paths. */
  lemma RoundTripCanFail()
    ensures var single := [Location("/c", "/h")];
            FindUrl(single, Archive, "/h/c/f") == Some("/c/c/f") && FindUrl(single, Stage, "/c/c/f") == Some("/h/h/f")
    ensures var nested := [Location("/c", "/a"), Location("/c/b", "/d")];
            FindUrl(nested, Archive, "/a/b") == Some("/c/b") && FindUrl(nested, Stage, "/c/b") == Some("/d")
  {
    var single := [Location("/c", "/h")];
    assert BestMatch(single[1..], Archive, "/h/c/f") == None;
    calc {
      ReplaceAll("/h/c/f", "/h", "/c");
      "/c" + ReplaceAll("/c/f", "/h", "/c");
      { ReplaceLiteral("/c/f", "/h", "/c"); }
      "/c/c/f";
    }
    RepeatedHotPathReturns();
    NestedColdPaths();
  }

  /** A hot path repeated inside the URL does not by itself break it. */
  lemma RepeatedHotPathReturns()
    ensures var single := [Location("/c", "/h")];
            FindUrl(single, Archive, "/h/h/f") == Some("/c/c/f") && FindUrl(single, Stage, "/c/c/f") == Some("/h/h/f")
  {
    var single := [Location("/c", "/h")];
    assert BestMatch(single[1..], Archive, "/h/h/f") == None;
    assert BestMatch(single[1..], Stage, "/c/c/f") == None;
    calc {
      ReplaceAll("/h/h/f", "/h", "/c");
      "/c" + ReplaceAll("/h/f", "/h", "/c");
      "/c" + ("/c" + ReplaceAll("/f", "/h", "/c"));
      { ReplaceLiteral("/f", "/h", "/c"); }
      "/c/c/f";
    }
    calc {
      ReplaceAll("/c/c/f", "/c", "/h");
      "/h" + ReplaceAll("/c/f", "/c", "/h");
      "/h" + ("/h" + ReplaceAll("/f", "/c", "/h"));
      { ReplaceLiteral("/f", "/c", "/h"); }
      "/h/h/f";
    }
  }

  lemma ReplaceLiteral(s: string, pattern: string, target: string)
    requires s in {"/c/f", "/f", "/b"} && pattern in {"/h", "/c", "/a"}
    requires s == "/c/f" ==> pattern == "/h"
    ensures ReplaceAll(s, pattern, target) == s
  {
    forall i | 0 <= i <= |s| ensures !(pattern <= s[i..]) {
      if |s[i..]| >= 2 {
        assert s[i..][0] == s[i] && s[i..][1] == s[i + 1];
      }
    }
    ReplaceAbsent(s, pattern, target);
  }

  lemma NestedColdPaths()
    ensures var nested := [Location("/c", "/a"), Location("/c/b", "/d")];
            FindUrl(nested, Archive, "/a/b") == Some("/c/b") && FindUrl(nested, Stage, "/c/b") == Some("/d")
  {
    var nested := [Location("/c", "/a"), Location("/c/b", "/d")];
    var hot := BestMatch(nested, Archive, "/a/b");
    assert SourcePath(nested[0], Archive) == "/a" && "/a" <= "/a/b";
    assert !("/d" <= "/a/b") by { assert "/d"[1] != "/a/b"[1]; }
    assert hot == Some(nested[0]);
    assert "/a/b"[2..] == "/b";
    ReplaceLiteral("/b", "/a", "/c");
    assert ReplaceAll("/a/b", "/a", "/c") == "/c" + ReplaceAll("/b", "/a", "/c") == "/c/b";
    var cold := BestMatch(nested, Stage, "/c/b");
    assert SourcePath(nested[1], Stage) == "/c/b" && "/c/b" <= "/c/b";
    assert cold == Some(nested[1]);
    assert "/c/b"[4..] == "";
    assert ReplaceAll("/c/b", "/c/b", "/d") == "/d" + ReplaceAll("", "/c/b", "/d") == "/d";
  }
}
