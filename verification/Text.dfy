/** String operations of the source language that the validations use. */
module Text {
  import opened Options

  /** Whitespace within ASCII, as strip() sees it. */
  predicate IsSpace(c: char) {
    c == ' ' || '\t' <= c <= '\r' || '\U{1c}' <= c <= '\U{1f}'
  }

  function StripLeft(s: string, drop: char -> bool): (r: string)
    ensures |r| <= |s| && r == s[|s| - |r|..]
    ensures r != "" ==> !drop(r[0])
  {
    if s != "" && drop(s[0]) then StripLeft(s[1..], drop) else s
  }

  function StripRight(s: string, drop: char -> bool): (r: string)
    ensures |r| <= |s| && r == s[..|r|]
    ensures r != "" ==> !drop(r[|r| - 1])
  {
    if s != "" && drop(s[|s| - 1]) then StripRight(s[..|s| - 1], drop) else s
  }

  function StripBoth(s: string, drop: char -> bool): (r: string)
    ensures r != "" ==> !drop(r[0]) && !drop(r[|r| - 1])
    ensures forall c | c in r :: c in s
  {
    StripRight(StripLeft(s, drop), drop)
  }

  function Strip(s: string): string {
    StripBoth(s, IsSpace)
  }

  function StripSlashes(s: string): string {
    StripBoth(s, c => c == '/')
  }

  /** The parts before and after the first occurrence of a character. */
  function Cut(s: string, c: char): (r: Option<(string, string)>)
    ensures r.None? <==> c !in s
    ensures r.Some? ==> c !in r.value.0 && s == r.value.0 + [c] + r.value.1
  {
    if s == "" then None
    else if s[0] == c then Some(("", s[1..]))
    else
      match Cut(s[1..], c)
      case None => None
      case Some((before, after)) => Some(([s[0]] + before, after))
  }

  /** The first piece of a split. */
  function Before(s: string, c: char): (r: string)
    ensures r <= s && c !in r
    ensures |r| < |s| ==> s[|r|] == c
  {
    match Cut(s, c)
    case None => s
    case Some((before, _)) => before
  }

  lemma {:induction false} CutJoined(before: string, c: char, after: string)
    requires c !in before
    ensures Cut(before + [c] + after, c) == Some((before, after))
  {
    var s := before + [c] + after;
    if before == "" {
      assert s[1..] == after;
    } else {
      assert before == [before[0]] + before[1..];
      assert s[0] == before[0] && s[1..] == before[1..] + [c] + after;
      CutJoined(before[1..], c, after);
    }
  }

  // ---------- What is stripped ----------

  /** Exactly the characters outside of i and j are to be dropped. */
  ghost predicate Trimmed(s: string, i: nat, j: nat, drop: set<char>) {
    && i <= j <= |s|
    && (forall k | 0 <= k < |s| && !(i <= k < j) :: s[k] in drop)
    && (i < j ==> s[i] !in drop && s[j - 1] !in drop)
  }

  lemma {:induction false} StripLeftDrops(s: string, drop: char -> bool)
    ensures forall k | 0 <= k < |s| - |StripLeft(s, drop)| :: drop(s[k])
  {
    if s != "" && drop(s[0]) {
      StripLeftDrops(s[1..], drop);
      assert forall k | 1 <= k < |s| :: s[k] == s[1..][k - 1];
    }
  }

  lemma {:induction false} StripRightDrops(s: string, drop: char -> bool)
    ensures forall k | |StripRight(s, drop)| <= k < |s| :: drop(s[k])
  {
    if s != "" && drop(s[|s| - 1]) {
      StripRightDrops(s[..|s| - 1], drop);
      assert forall k | 0 <= k < |s| - 1 :: s[k] == s[..|s| - 1][k];
    }
  }

  lemma StripBothTrims(s: string, drop: char -> bool, dropped: set<char>) returns (i: nat, j: nat)
    requires forall c :: drop(c) <==> c in dropped
    ensures Trimmed(s, i, j, dropped) && StripBoth(s, drop) == s[i..j]
  {
    hide StripLeft, StripRight;
    var left := StripLeft(s, drop);
    var both := StripRight(left, drop);
    StripLeftDrops(s, drop);
    StripRightDrops(left, drop);
    i := |s| - |left|;
    j := i + |both|;
    assert forall k | i <= k < |s| :: s[k] == left[k - i];
    assert s[i..j] == both;
  }

  /** Tab, line feed, vertical tab, form feed, carriage return, the four separators, and the space. */
  const SPACES := {'\t', '\n', '\U{0b}', '\U{0c}', '\r', '\U{1c}', '\U{1d}', '\U{1e}', '\U{1f}', ' '}

  lemma StripExact(s: string) returns (i: nat, j: nat)
    ensures Trimmed(s, i, j, SPACES) && Strip(s) == s[i..j]
  {
    i, j := StripBothTrims(s, IsSpace, SPACES);
  }

  lemma StripSlashesExact(s: string) returns (i: nat, j: nat)
    ensures Trimmed(s, i, j, {'/'}) && StripSlashes(s) == s[i..j]
  {
    i, j := StripBothTrims(s, c => c == '/', {'/'});
  }
}
