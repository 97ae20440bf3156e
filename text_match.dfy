/** Case folding and substring search, the two string operations the keyword
    classifier relies on. */
module TextMatch {

  /** Lower-case one character: the ASCII letters A-Z map to a-z, everything
      else is left alone. */
  function Lower(c: char): (r: char)
    ensures 'A' <= c <= 'Z' ==> r as int == c as int + 32
    ensures !('A' <= c <= 'Z') ==> r == c
    ensures !('A' <= r <= 'Z')
  {
    if 'A' <= c <= 'Z' then (c as int + 32) as char else c
  }

  /** Case folding of a whole string, character by character. */
  function Fold(s: string): (r: string)
    ensures |r| == |s|
    ensures forall i :: 0 <= i < |s| ==> r[i] == Lower(s[i])
  {
    if s == [] then [] else [Lower(s[0])] + Fold(s[1..])
  }

  /** Folding twice is folding once. */
  lemma FoldIdempotent(s: string)
    ensures Fold(Fold(s)) == Fold(s)
  {
    var once := Fold(s);
    var twice := Fold(once);
    assert forall i :: 0 <= i < |s| ==> twice[i] == once[i] by {
      forall i | 0 <= i < |s| ensures twice[i] == once[i] {
        assert !('A' <= once[i] <= 'Z');
      }
    }
  }

  /** Folding commutes with taking a slice. */
  lemma FoldSlice(s: string, i: nat, j: nat)
    requires i <= j <= |s|
    ensures Fold(s)[i..j] == Fold(s[i..j])
  {
    var whole, part := Fold(s)[i..j], Fold(s[i..j]);
    forall k | 0 <= k < j - i
      ensures whole[k] == part[k]
    {
      assert whole[k] == Fold(s)[i + k] == Lower(s[i + k]);
      assert s[i..j][k] == s[i + k];
    }
    assert whole == part;
  }

  /** A character that is not an upper-case letter occurs in the folding only
      when it, or its upper-case form, occurs in the original. */
  lemma FoldMember(s: string, x: char)
    requires !('A' <= x <= 'Z')
    ensures x in Fold(s) ==> x in s || ('a' <= x <= 'z' && (x as int - 32) as char in s)
  {
    if x in Fold(s) {
      var i :| 0 <= i < |s| && Fold(s)[i] == x;
      assert Lower(s[i]) == x;
    }
  }

  /** `p` starts at position `i` of `s`. */
  predicate OccursAt(s: string, p: string, i: nat)
  {
    i + |p| <= |s| && s[i..i + |p|] == p
  }

  /** `p` occurs in `s` at some position: the meaning of Python's `p in s`
      on strings. */
  ghost predicate Occurs(s: string, p: string)
  {
    exists i: nat :: OccursAt(s, p, i)
  }

  /** Substring test by scanning the start positions of `s` from the left. */
  predicate Contains(s: string, p: string)
    decreases |s|
  {
    if |p| > |s| then false
    else if s[..|p|] == p then true
    else Contains(s[1..], p)
  }

  /** The scan finds `p` exactly when `p` occurs in `s`. */
  lemma {:induction false} ContainsIff(s: string, p: string)
    ensures Contains(s, p) <==> Occurs(s, p)
    decreases |s|
  {
    if |p| > |s| {
      assert forall i: nat :: !OccursAt(s, p, i);
    } else if s[..|p|] == p {
      assert OccursAt(s, p, 0);
    } else {
      ContainsIff(s[1..], p);
      if Contains(s[1..], p) {
        var i: nat :| OccursAt(s[1..], p, i);
        var shifted, here := s[1..][i..i + |p|], s[i + 1..i + 1 + |p|];
        assert forall k :: 0 <= k < |p| ==> shifted[k] == here[k];
        assert shifted == here;
        assert OccursAt(s, p, i + 1);
      } else {
        forall i: nat ensures !OccursAt(s, p, i) {
          if i > 0 && i + |p| <= |s| {
            var shifted, here := s[1..][i - 1..i - 1 + |p|], s[i..i + |p|];
            assert forall k :: 0 <= k < |p| ==> shifted[k] == here[k];
            assert shifted == here;
            assert !OccursAt(s[1..], p, i - 1);
          }
        }
      }
    }
  }

  /** A pattern whose first character is missing from `s` does not occur in it. */
  lemma AbsentFirst(s: string, p: string)
    requires p != [] && p[0] !in s
    ensures !Occurs(s, p)
  {
    forall i: nat
      ensures !OccursAt(s, p, i)
    {
      if i + |p| <= |s| {
        assert s[i..i + |p|][0] == s[i];
      }
    }
  }
}
