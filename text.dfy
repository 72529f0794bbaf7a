/**
 Substring search on error texts.

 Both error classifiers of the registration loop decide by asking whether the
 debug text of an error contains a fixed marker, case-sensitively.  `Contains`
 models that search and is proved equal to the positional definition
 `exists i :: OccursAt(s, sub, i)`.
 */
module Text {

  /** `sub` occurs in `s` starting at index `i`. */
  predicate OccursAt(s: string, sub: string, i: nat) {
    i + |sub| <= |s| && s[i..i + |sub|] == sub
  }

  /** An occurrence at `i + 1` in `s` is an occurrence at `i` in `s[1..]`, and back. */
  lemma OccursAtShift(s: string, sub: string, i: nat)
    requires |s| > 0
    ensures OccursAt(s, sub, i + 1) <==> OccursAt(s[1..], sub, i)
  {
    if i + 1 + |sub| <= |s| {
      assert s[1..][i..i + |sub|] == s[i + 1..i + 1 + |sub|];
    }
  }

  /** Case-sensitive substring test, scanning candidate start positions from the left. */
  function Contains(s: string, sub: string): (r: bool)
    ensures r <==> exists i: nat :: OccursAt(s, sub, i)
    decreases |s|
  {
    if |sub| > |s| then
      false
    else if s[..|sub|] == sub then
      assert OccursAt(s, sub, 0);
      true
    else
      assert !OccursAt(s, sub, 0);
      assert forall i: nat :: OccursAt(s, sub, i + 1) <==> OccursAt(s[1..], sub, i) by {
        forall i: nat ensures OccursAt(s, sub, i + 1) <==> OccursAt(s[1..], sub, i) {
          OccursAtShift(s, sub, i);
        }
      }
      assert (exists i: nat :: OccursAt(s, sub, i)) ==> exists i: nat :: OccursAt(s[1..], sub, i) by {
        if exists i: nat :: OccursAt(s, sub, i) {
          var i: nat :| OccursAt(s, sub, i);
          assert i != 0;
          assert OccursAt(s[1..], sub, i - 1);
        }
      }
      Contains(s[1..], sub)
  }

  /** Containment is transitive: a text that contains `mid` contains everything `mid` contains. */
  lemma ContainsTransitive(s: string, mid: string, sub: string)
    requires Contains(s, mid) && Contains(mid, sub)
    ensures Contains(s, sub)
  {
    var i: nat :| OccursAt(s, mid, i);
    var j: nat :| OccursAt(mid, sub, j);
    assert s[i + j..i + j + |sub|] == sub by {
      forall k | 0 <= k < |sub|
        ensures s[i + j..i + j + |sub|][k] == sub[k]
      {
        assert sub[k] == mid[j + k] == s[i..i + |mid|][j + k];
      }
    }
    assert OccursAt(s, sub, i + j);
  }

  /** A witness position is enough to establish containment. */
  lemma ContainsAt(s: string, sub: string, i: nat)
    requires OccursAt(s, sub, i)
    ensures Contains(s, sub)
  {
  }

  /** Between texts of equal length, containment is equality. */
  lemma SameLengthContains(s: string, sub: string)
    requires |s| == |sub|
    ensures Contains(s, sub) <==> s == sub
  {
    if Contains(s, sub) {
      var i: nat :| OccursAt(s, sub, i);
      assert i == 0 && s[..|s|] == s;
    } else {
      assert !OccursAt(s, sub, 0);
    }
  }

  /** A non-empty marker whose first character never appears in `s` is not contained in `s`. */
  lemma FirstCharAbsent(s: string, sub: string)
    requires |sub| > 0 && sub[0] !in s
    ensures !Contains(s, sub)
  {
  }
}
