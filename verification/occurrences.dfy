/**
 * Occurrences of a pattern inside a string: counting them, and the conditions under
 * which gluing two strings together neither creates nor destroys an occurrence.
 * The markup renderer's termination argument and its tag-matching proofs rest on these.
 */
module Occurrences {

  /** Number of positions of `s` at which `pat` starts. */
  function Count(s: string, pat: string): (n: nat)
    ensures n <= |s|
  {
    if s == [] then 0 else (if pat <= s then 1 else 0) + Count(s[1..], pat)
  }

  /** No occurrence is counted exactly when none starts anywhere. */
  lemma {:induction false} CountZero(s: string, pat: string)
    ensures Count(s, pat) == 0 <==> forall i :: 0 <= i < |s| ==> !(pat <= s[i..])
  {
    if s != [] {
      CountZero(s[1..], pat);
      assert s[0..] == s;
      assert forall i :: 1 <= i < |s| ==> s[i..] == s[1..][i - 1..];
    }
  }

  /** Every occurrence of `pat` in `a + b` that starts inside `a` also ends inside `a`. */
  ghost predicate NoStraddle(a: string, b: string, pat: string) {
    forall i :: 0 <= i < |a| && pat <= (a + b)[i..] ==> i + |pat| <= |a|
  }

  /**
   * No position of `a` starts an occurrence of `pat`, not even one that would be
   * completed by whatever follows `a`.
   */
  ghost predicate Avoids(a: string, pat: string) {
    forall i :: 0 <= i < |a| ==> !(pat <= a[i..]) && !(a[i..] <= pat)
  }

  /** Gluing two strings adds no occurrence when none can straddle the seam. */
  lemma {:induction false} CountConcat(a: string, b: string, pat: string)
    requires NoStraddle(a, b, pat)
    ensures Count(a + b, pat) == Count(a, pat) + Count(b, pat)
  {
    if a == [] {
      assert a + b == b;
    } else {
      assert (a + b)[1..] == a[1..] + b;
      forall i | 0 <= i < |a[1..]| && pat <= (a[1..] + b)[i..]
        ensures i + |pat| <= |a[1..]|
      {
        assert (a[1..] + b)[i..] == (a + b)[i + 1..];
      }
      CountConcat(a[1..], b, pat);
      if pat <= a + b {
        assert (a + b)[0..] == a + b;
        assert |pat| <= |a|;
        assert pat <= a by {
          assert (a + b)[..|pat|] == a[..|pat|];
        }
      }
      if pat <= a {
        assert pat <= a + b by {
          assert (a + b)[..|pat|] == a[..|pat|];
        }
      }
    }
  }

  /** Two prefixes of one string are prefixes of each other, the shorter of the longer. */
  lemma PrefixesComparable(x: string, y: string, z: string)
    ensures x <= z && y <= z && |x| <= |y| ==> x <= y
  {
    if x <= z && y <= z && |x| <= |y| {
      assert y[..|x|] == z[..|x|];
    }
  }

  /** What an occurrence straddling the seam of `a + b` says about the seam's characters. */
  lemma SeamCharacters(a: string, b: string, pat: string, i: int)
    ensures 0 <= i < |a| < i + |pat| && pat <= (a + b)[i..] ==>
              b != [] && a[|a| - 1] in pat[..|pat| - 1] && b[0] in pat[1..]
  {
    if 0 <= i < |a| < i + |pat| && pat <= (a + b)[i..] {
      var m := |a| - i;
      assert (a + b)[i..][m - 1] == a[|a| - 1];
      assert pat[..|pat| - 1][m - 1] == pat[m - 1];
      assert (a + b)[i..][m] == b[0];
      assert pat[1..][m - 1] == pat[m];
    }
  }

  /** A seam cannot be straddled when the last character of `a` cannot end a proper
      prefix of `pat`, or the first character of `b` cannot continue one. */
  lemma NoStraddleAtSeam(a: string, b: string, pat: string)
    requires |pat| <= 1 || a == [] || b == [] || a[|a| - 1] !in pat[..|pat| - 1] || b[0] !in pat[1..]
    ensures NoStraddle(a, b, pat)
  {
    forall i | 0 <= i < |a| && pat <= (a + b)[i..]
      ensures i + |pat| <= |a|
    {
      SeamCharacters(a, b, pat, i);
    }
  }

  /** A string that avoids `pat` cannot be straddled by an occurrence. */
  lemma AvoidsNoStraddle(a: string, b: string, pat: string)
    requires Avoids(a, pat)
    ensures NoStraddle(a, b, pat)
  {
    forall i | 0 <= i < |a| ensures !(pat <= (a + b)[i..]) {
      AvoidsFollowed(a, b, pat, i);
    }
  }

  /** No occurrence of `pat` starts inside a string that avoids it, whatever follows. */
  lemma AvoidsFollowed(a: string, b: string, pat: string, i: int)
    requires Avoids(a, pat) && 0 <= i < |a|
    ensures !(pat <= (a + b)[i..])
  {
    assert a[i..] <= (a + b)[i..];
    PrefixesComparable(a[i..], pat, (a + b)[i..]);
    PrefixesComparable(pat, a[i..], (a + b)[i..]);
  }

  /** A string that avoids `pat` holds no occurrence of it. */
  lemma AvoidsCount(a: string, pat: string)
    requires Avoids(a, pat)
    ensures Count(a, pat) == 0
  {
    CountZero(a, pat);
  }

  /** A string missing the first character of `pat` avoids it. */
  lemma AvoidsWithoutHead(a: string, pat: string)
    requires pat != [] && pat[0] !in a
    ensures Avoids(a, pat)
  {
    forall i | 0 <= i < |a| ensures !(pat <= a[i..]) && !(a[i..] <= pat) {
      assert a[i..][0] == a[i];
    }
  }

  /** Two strings that avoid `pat` still avoid it once glued together. */
  lemma {:induction false} AvoidsConcat(a: string, b: string, pat: string)
    requires Avoids(a, pat) && Avoids(b, pat)
    ensures Avoids(a + b, pat)
  {
    forall i | 0 <= i < |a + b| ensures !(pat <= (a + b)[i..]) && !((a + b)[i..] <= pat) {
      if i < |a| {
        AvoidsFollowed(a, b, pat, i);
        assert (a + b)[i..][..|a| - i] == a[i..];
      } else {
        assert (a + b)[i..] == b[i - |a|..];
      }
    }
  }

  /** Extending a string that avoids `pat` by a character that starts no occurrence. */
  lemma AvoidsCons(c: char, a: string, pat: string)
    requires Avoids(a, pat)
    requires !(pat <= [c] + a) && !([c] + a <= pat)
    ensures Avoids([c] + a, pat)
  {
    forall i | 0 <= i < |[c] + a| ensures !(pat <= ([c] + a)[i..]) && !(([c] + a)[i..] <= pat) {
      if i > 0 {
        assert ([c] + a)[i..] == a[i - 1..];
      }
    }
  }

  /** Extending a string that avoids `pat` by a character that cannot start it. */
  lemma AvoidsConsOther(c: char, a: string, pat: string)
    requires Avoids(a, pat) && pat != [] && c != pat[0]
    ensures Avoids([c] + a, pat)
  {
    assert ([c] + a)[0] == c;
    AvoidsCons(c, a, pat);
  }
}
