/** The few Python string operations the core relies on: repetition (`c * n`),
    right-aligned padding (`format(s, ">w")`) and `str.strip()`. */
module PyStr {

  /** `c * n` for a one-character string `c`; Python gives "" for a negative count. */
  function Repeat(c: char, n: int): (r: string)
    ensures |r| == if n < 0 then 0 else n
    decreases n
  {
    if n <= 0 then [] else [c] + Repeat(c, n - 1)
  }

  /** Characters for which Python's `str.isspace()` holds. */
  predicate IsSpace(c: char) {
    c == ' ' || '\t' <= c <= '\r' || '\U{1C}' <= c <= '\U{1F}' || c == '\U{85}' || c == '\U{A0}'
    || c == '\U{1680}' || '\U{2000}' <= c <= '\U{200A}' || c == '\U{2028}' || c == '\U{2029}'
    || c == '\U{202F}' || c == '\U{205F}' || c == '\U{3000}'
  }

  /** Number of leading whitespace characters of `s`. */
  function LeadingSpaces(s: string): (n: nat)
    ensures n <= |s|
  {
    if s != [] && IsSpace(s[0]) then 1 + LeadingSpaces(s[1..]) else 0
  }

  /** Number of trailing whitespace characters of `s`. */
  function TrailingSpaces(s: string): (n: nat)
    ensures n <= |s|
  {
    if s != [] && IsSpace(s[|s| - 1]) then 1 + TrailingSpaces(s[..|s| - 1]) else 0
  }

  /** `s.strip()`: `s` without its leading and trailing whitespace. */
  function Strip(s: string): (r: string)
    ensures |r| <= |s|
  {
    var lead := LeadingSpaces(s);
    if lead == |s| then [] else
    var rest := s[lead..];
    rest[..|rest| - TrailingSpaces(rest)]
  }

  /** Every character of `c * n` is `c`. */
  lemma {:induction false} RepeatChars(c: char, n: int)
    ensures forall i :: 0 <= i < |Repeat(c, n)| ==> Repeat(c, n)[i] == c
    decreases n
  {
    if n > 0 {
      RepeatChars(c, n - 1);
    }
  }

  /** `c * (a + b) == c * a + c * b` for non-negative counts. */
  lemma {:induction false} RepeatAdd(c: char, a: nat, b: nat)
    ensures Repeat(c, a + b) == Repeat(c, a) + Repeat(c, b)
  {
    if a > 0 {
      RepeatAdd(c, a - 1, b);
    }
  }

  /** The leading whitespace run: all whitespace, and stopped by a non-whitespace character. */
  lemma {:induction false} LeadingSpacesRun(s: string)
    ensures forall k :: 0 <= k < LeadingSpaces(s) ==> IsSpace(s[k])
    ensures LeadingSpaces(s) < |s| ==> !IsSpace(s[LeadingSpaces(s)])
  {
    if s != [] && IsSpace(s[0]) {
      LeadingSpacesRun(s[1..]);
      forall k | 1 <= k < LeadingSpaces(s) ensures IsSpace(s[k]) {
        assert s[k] == s[1..][k - 1];
      }
    }
  }

  /** The trailing whitespace run: all whitespace, and preceded by a non-whitespace character. */
  lemma {:induction false} TrailingSpacesRun(s: string)
    ensures forall k :: |s| - TrailingSpaces(s) <= k < |s| ==> IsSpace(s[k])
    ensures TrailingSpaces(s) < |s| ==> !IsSpace(s[|s| - 1 - TrailingSpaces(s)])
  {
    if s != [] && IsSpace(s[|s| - 1]) {
      var init := s[..|s| - 1];
      TrailingSpacesRun(init);
      forall k | |s| - TrailingSpaces(s) <= k < |s| - 1 ensures IsSpace(s[k]) {
        assert s[k] == init[k];
      }
      if TrailingSpaces(s) < |s| {
        assert s[|s| - 1 - TrailingSpaces(s)] == init[|init| - 1 - TrailingSpaces(init)];
      }
    }
  }

    /** `s.strip()` is the slice of `s` between its leading and its trailing whitespace. */
  lemma StripShape(s: string)
    ensures var r := Strip(s); var a := LeadingSpaces(s);
      a + |r| <= |s| && s[a..a + |r|] == r
      && (forall k :: 0 <= k < a ==> IsSpace(s[k]))
      && (forall k :: a + |r| <= k < |s| ==> IsSpace(s[k]))
      && (r != [] ==> !IsSpace(r[0]) && !IsSpace(r[|r| - 1]))
  {
    StripSlice(s);
    StripEnds(s);
  }

  /** Where `s.strip()` sits in `s`, and that only whitespace surrounds it. */
  lemma StripSlice(s: string)
    ensures var r := Strip(s); var a := LeadingSpaces(s);
      a + |r| <= |s| && s[a..a + |r|] == r
      && (forall k :: 0 <= k < a ==> IsSpace(s[k]))
      && (forall k :: a + |r| <= k < |s| ==> IsSpace(s[k]))
  {
    var a := LeadingSpaces(s);
    LeadingSpacesRun(s);
    if a < |s| {
      var rest := s[a..];
      TrailingSpacesRun(rest);
      var r := rest[..|rest| - TrailingSpaces(rest)];
      assert r == Strip(s);
      assert s[a..a + |r|] == r;
      SuffixSpaces(s, a, |r|);
    }
  }

  /** `s.strip()` neither starts nor ends with whitespace. */
  lemma StripEnds(s: string)
    ensures var r := Strip(s); r != [] ==> !IsSpace(r[0]) && !IsSpace(r[|r| - 1])
  {
    var a := LeadingSpaces(s);
    LeadingSpacesRun(s);
    if a < |s| {
      var rest := s[a..];
      TrailingSpacesRun(rest);
      assert rest[0] == s[a];
    }
  }

  /** Whitespace after position `n` of the suffix `s[a..]` is whitespace after `a + n` in `s`. */
  lemma SuffixSpaces(s: string, a: nat, n: nat)
    requires a + n <= |s|
    requires forall j :: n <= j < |s[a..]| ==> IsSpace(s[a..][j])
    ensures forall k :: a + n <= k < |s| ==> IsSpace(s[k])
  {
    forall k | a + n <= k < |s| ensures IsSpace(s[k]) {
      assert s[a..][k - a] == s[k];
    }
  }

  /** `format(s, ">width")`: `s` right-aligned in a field of at least `width` characters. */
  function PadLeft(s: string, width: nat): (r: string)
    ensures |r| == if |s| < width then width else |s|
  {
    Repeat(' ', width - |s|) + s
  }
}
