/**
 * String search as the bot uses it: JavaScript's `String.prototype.includes`.
 * Strings are sequences of characters; no normalisation or case folding applies.
 */
module Text {

  /** `p` is a prefix of `s`. */
  predicate IsPrefix(p: string, s: string) {
    |p| <= |s| && s[..|p|] == p
  }

  /** `s.includes(sub)`: scans `s` from the left for an occurrence of `sub`. */
  predicate Contains(s: string, sub: string)
    decreases |s|
  {
    IsPrefix(sub, s) || (|s| > 0 && Contains(s[1..], sub))
  }

  /** `sub` occurs in `s` starting at index `i`. */
  ghost predicate OccursAt(s: string, sub: string, i: int) {
    0 <= i && i + |sub| <= |s| && s[i..i + |sub|] == sub
  }

  /** The scanning definition agrees with the positional one, in both directions. */
  lemma {:induction false} ContainsIff(s: string, sub: string)
    ensures Contains(s, sub) <==> exists i :: OccursAt(s, sub, i)
    decreases |s|
  {
    if IsPrefix(sub, s) {
      assert OccursAt(s, sub, 0);
    } else if |s| == 0 {
      assert |sub| > 0;
    } else {
      ContainsIff(s[1..], sub);
      if Contains(s[1..], sub) {
        var i :| OccursAt(s[1..], sub, i);
        assert s[i + 1..i + 1 + |sub|] == s[1..][i..i + |sub|];
        assert OccursAt(s, sub, i + 1);
      } else {
        forall i | 0 < i && i + |sub| <= |s| ensures !OccursAt(s, sub, i) {
          assert s[1..][i - 1..i - 1 + |sub|] == s[i..i + |sub|];
          assert !OccursAt(s[1..], sub, i - 1);
        }
        assert !OccursAt(s, sub, 0);
      }
    }
  }

  /** An occurrence inside either part of a concatenation is an occurrence in the whole. */
  lemma ContainsInConcat(a: string, b: string, sub: string)
    ensures Contains(a, sub) ==> Contains(a + b, sub)
    ensures Contains(b, sub) ==> Contains(a + b, sub)
  {
    ContainsIff(a, sub);
    ContainsIff(b, sub);
    ContainsIff(a + b, sub);
    if Contains(a, sub) {
      var i :| OccursAt(a, sub, i);
      assert (a + b)[i..i + |sub|] == a[i..i + |sub|];
      assert OccursAt(a + b, sub, i);
    }
    if Contains(b, sub) {
      var i :| OccursAt(b, sub, i);
      assert (a + b)[|a| + i..|a| + i + |sub|] == b[i..i + |sub|];
      assert OccursAt(a + b, sub, |a| + i);
    }
  }

  /** Every string contains itself. */
  lemma ContainsSelf(x: string)
    ensures Contains(x, x)
  {
  }

  /** A string occurs in any string built around it. */
  lemma ContainsMiddle(pre: string, x: string, post: string)
    ensures Contains(pre + x + post, x)
  {
    ContainsSelf(x);
    ContainsInConcat(pre, x, x);
    ContainsInConcat(pre + x, post, x);
  }
}
