/** Facts about sequences without repetition. */
module Sequences {
  ghost predicate Distinct<T>(s: seq<T>) {
    forall i, j | 0 <= i < j < |s| :: s[i] != s[j]
  }

  ghost function Members<T>(s: seq<T>): set<T> {
    set x | x in s
  }

  lemma {:induction false} MembersBound<T>(s: seq<T>)
    ensures |Members(s)| <= |s|
    ensures Distinct(s) <==> |Members(s)| == |s|
  {
    if s != [] {
      var n := |s| - 1;
      MembersBound(s[..n]);
      assert s == s[..n] + [s[n]];
      assert Members(s) == Members(s[..n]) + {s[n]};
      if s[n] in s[..n] {
        assert Members(s) == Members(s[..n]);
      } else if Distinct(s[..n]) {
        forall i, j | 0 <= i < j < |s| ensures s[i] != s[j] {
          assert s[i] == s[..n][i];
        }
      } else {
        var i, j :| 0 <= i < j < n && s[..n][i] == s[..n][j];
        assert s[i] == s[j];
      }
    }
  }

  /** Two sequences of the same length with the same members repeat alike. */
  lemma SameMembers<T>(a: seq<T>, b: seq<T>)
    requires |a| == |b| && Members(a) == Members(b)
    ensures Distinct(a) <==> Distinct(b)
  {
    MembersBound(a);
    MembersBound(b);
  }

  lemma MembersAppend<T>(s: seq<T>, x: T)
    ensures Members(s + [x]) == Members(s) + {x}
    ensures x in Members(s) <==> x in s
  {
  }

  lemma DistinctAppend<T>(s: seq<T>, x: T)
    ensures Distinct(s + [x]) <==> Distinct(s) && x !in s
  {
    var t := s + [x];
    if Distinct(t) {
      forall i, j | 0 <= i < j < |s| ensures s[i] != s[j] {
        assert t[i] != t[j];
      }
      forall i | 0 <= i < |s| ensures s[i] != x {
        assert t[i] != t[|s|];
      }
    }
  }
}
