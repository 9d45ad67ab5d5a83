/**
 * What the markup renderer promises: the leftmost innermost span is the one rewritten,
 * well-nested colour tags turn into properly nested ANSI pairs, text without complete
 * spans passes through, and font stripping deletes tags and nothing else.
 */
module MarkupProperties {
  import opened Wrappers
  import opened Occurrences
  import opened Numerals
  import opened Markup

  // ---------------------------------------------------------------------------------
  // Finding the leftmost innermost span
  // ---------------------------------------------------------------------------------

  /** A complete opening tag at `p` is recognised, and ends right after its `]`. */
  lemma OpenTagFound(s: string, p: nat, hex: string)
    requires p <= |s| && IsColorHex(hex) && ColorOpen + hex + "]" <= s[p..]
    ensures OpenTagEnd(s, p) == Some(p + 8 + |hex|)
  {
    var tag := ColorOpen + hex + "]";
    assert forall k :: 0 <= k < |tag| ==> s[p + k] == tag[k] by {
      forall k | 0 <= k < |tag| ensures s[p + k] == tag[k] {
        assert s[p..][k] == tag[k];
      }
    }
    assert s[p..][..8] == tag[..8] == "[color=#";
    assert s[p + 7 + |hex|] == ']';
    assert forall k :: p + 8 <= k < p + 7 + |hex| ==> IsHexDigit(s[k]) by {
      forall k | p + 8 <= k < p + 7 + |hex| ensures IsHexDigit(s[k]) {
        assert s[k] == tag[k - p] == hex[k - p - 7];
      }
    }
  }

  /** The content scan stops at `e` when `e` is the first `[/color]` and no `[color=` precedes it. */
  lemma ContentEndAt(s: string, j: nat, e: nat)
    requires j <= e <= |s| && ColorClose <= s[e..]
    requires forall k :: j <= k < e ==> !(ColorOpen <= s[k..]) && !(ColorClose <= s[k..])
    ensures ContentEnd(s, j) == Some(e)
    decreases e - j
  {
    if j < e {
      ContentEndAt(s, j + 1, e);
    }
  }

  /**
   * When the content scan from `j` fails, every `[/color]` at or after `j` has a `[color=`
   * starting before it: the lazy text group may not cross an opening tag.
   */
  lemma {:induction false} ContentEndNone(s: string, j: nat, e: nat)
    requires j <= e <= |s| && ColorClose <= s[e..] && ContentEnd(s, j).None?
    ensures exists k :: j <= k < e && ColorOpen <= s[k..]
    decreases e - j
  {
    assert j != e;
    if !(ColorOpen <= s[j..]) {
      ContentEndNone(s, j + 1, e);
    }
  }

  /** An opening tag holds no `[` after its first character. */
  lemma OpenTagBrackets(s: string, p: nat)
    requires p <= |s|
    ensures OpenTagEnd(s, p).Some? ==> forall k :: p < k < OpenTagEnd(s, p).value ==> s[k] != '['
  {
    if OpenTagEnd(s, p).Some? {
      var q := OpenTagEnd(s, p).value;
      var hex := s[p + 7..q - 1];
      var tag := ColorOpen + hex + "]";
      OpenTagShape(s, p);
      forall k | p < k < q ensures s[k] != '[' {
        assert s[k] == s[p..q][k - p] == tag[k - p];
        if k - p >= 7 && k - p < 7 + |hex| {
          assert tag[k - p] == hex[k - p - 7];
        }
      }
    }
  }

  /**
   * Before a `[color=` that follows text free of `[/color]`, no span can match: the scan of
   * any earlier candidate reaches that `[color=` before any `[/color]`.
   */
  lemma NoMatchBefore(a: string, rest: string, p: nat)
    requires Avoids(a, ColorClose) && ColorOpen <= rest && p < |a|
    ensures MatchAt(a + rest, p).None?
  {
    var s := a + rest;
    assert s[|a|..] == rest;
    assert s[|a|] == rest[0] == '[';
    assert ColorOpen <= s[|a|..];
    assert rest[1] == 'c';
    assert !(ColorClose <= s[|a|..]);
    forall e | p <= e < |a| ensures !(ColorClose <= s[e..]) {
      AvoidsFollowed(a, rest, ColorClose, e);
    }
    OpenTagBrackets(s, p);
  }

  /** Where the pieces of a span starting at `p` sit inside `s`. */
  lemma SpanSlices(s: string, p: nat, tag: string, t: string, rest: string)
    requires p <= |s| && s[p..] == tag + (t + rest)
    ensures tag <= s[p..] && p + |tag| <= |s| && s[p..p + |tag|] == tag
    ensures s[p + |tag|..] == t + rest
    ensures s[p + |tag| + |t|..] == rest
    ensures s[p + |tag|..p + |tag| + |t|] == t
  {
    assert s[p + |tag|..] == s[p..][|tag|..];
    assert s[p..p + |tag|] == s[p..][..|tag|];
    assert s[p + |tag| + |t|..] == s[p + |tag|..][|t|..];
    assert s[p + |tag|..p + |tag| + |t|] == s[p + |tag|..][..|t|];
  }

  /**
   * A tag whose only `[` is its first character, not starting at the head of `x`, cannot
   * start there in `x + c` either when `c` starts with `[`: it would need a second `[`.
   */
  lemma NoTagAcrossBracket(x: string, c: string, pat: string)
    requires x != [] && !(pat <= x)
    requires c != [] && c[0] == '[' && pat != [] && '[' !in pat[1..]
    ensures !(pat <= x + c)
  {
    var y := x + c;
    if |x| >= |pat| {
      assert y[..|pat|] == x[..|pat|];
    } else {
      assert y[|x|] == '[';
      assert pat[1..][|x| - 1] != '[';
    }
  }

  /** Inside the text of a span neither colour tag starts, even one running on into `[/color]`. */
  lemma NoColorTagAt(s: string, q: nat, t: string, b: string, k: nat)
    requires q <= k < q + |t| && q <= |s| && s[q..] == t + (ColorClose + b)
    requires !(ColorOpen <= t[k - q..]) && !(ColorClose <= t[k - q..])
    ensures !(ColorOpen <= s[k..]) && !(ColorClose <= s[k..])
  {
    assert '[' !in ColorOpen[1..] && '[' !in ColorClose[1..];
    NoTagAcrossBracket(t[k - q..], ColorClose + b, ColorOpen);
    NoTagAcrossBracket(t[k - q..], ColorClose + b, ColorClose);
    assert s[k..] == s[q..][k - q..] == t[k - q..] + (ColorClose + b);
  }

  /** The text after an opening tag, holding neither tag and followed by `[/color]`, is the span's text. */
  lemma ContentEndAfter(s: string, q: nat, t: string, b: string)
    requires forall j :: 0 <= j < |t| ==> !(ColorOpen <= t[j..]) && !(ColorClose <= t[j..])
    requires q <= |s| && s[q..] == t + (ColorClose + b)
    ensures ContentEnd(s, q) == Some(q + |t|)
  {
    forall k | q <= k < q + |t| ensures !(ColorOpen <= s[k..]) && !(ColorClose <= s[k..]) {
      NoColorTagAt(s, q, t, b, k);
    }
    assert s[q + |t|..] == s[q..][|t|..];
    ContentEndAt(s, q, q + |t|);
  }

  /** A match is an opening tag followed by content that ends at a `[/color]`. */
  lemma {:induction false} MatchAtParts(s: string, p: nat, q: nat, e: nat, hex: string, t: string, end: nat)
    requires p <= |s| && OpenTagEnd(s, p) == Some(q) && q <= |s| && ContentEnd(s, q) == Some(e)
    requires s[p + 7..q - 1] == hex && s[q..e] == t && end == e + |ColorClose|
    ensures MatchAt(s, p) == Some(ColorMatch(p, hex, t, end))
  {
  }

  /**
   * A complete span starting at `p` whose text holds neither tag is matched at `p`, even
   * when the text ends with part of one (`[color=#112233]a[[/color]` has the text `a[`).
   */
  lemma MatchAtSpan(s: string, p: nat, hex: string, t: string, b: string)
    requires IsColorHex(hex) && Count(t, ColorOpen) == 0 && Count(t, ColorClose) == 0
    requires p <= |s| && s[p..] == (ColorOpen + hex + "]") + (t + (ColorClose + b))
    ensures MatchAt(s, p) == Some(ColorMatch(p, hex, t, |s| - |b|))
  {
    CountZero(t, ColorOpen);
    CountZero(t, ColorClose);
    MatchAtTagFree(s, p, hex, t, b);
  }

  /** `MatchAtSpan`, with the text's freedom from tags stated position by position. */
  lemma {:induction false} MatchAtTagFree(s: string, p: nat, hex: string, t: string, b: string)
    requires IsColorHex(hex)
    requires forall j :: 0 <= j < |t| ==> !(ColorOpen <= t[j..]) && !(ColorClose <= t[j..])
    requires p <= |s| && s[p..] == (ColorOpen + hex + "]") + (t + (ColorClose + b))
    ensures MatchAt(s, p) == Some(ColorMatch(p, hex, t, |s| - |b|))
  {
    var q := p + 8 + |hex|;
    SpanPositions(s, p, hex, t, b);
    OpenScan(s, p, hex, t, b);
    ContentEndAfter(s, q, t, b);
    MatchAtParts(s, p, q, q + |t|, hex, t, |s| - |b|);
  }

  /** The opening-tag scan of such a span ends right after its `]`. */
  lemma {:induction false} OpenScan(s: string, p: nat, hex: string, t: string, b: string)
    requires IsColorHex(hex)
    requires p <= |s| && s[p..] == (ColorOpen + hex + "]") + (t + (ColorClose + b))
    ensures OpenTagEnd(s, p) == Some(p + 8 + |hex|)
  {
    assert ColorOpen + hex + "]" <= s[p..];
    OpenTagFound(s, p, hex);
  }

  /** Where the opening tag, its colour, the text and the closing tag of a span at `p` sit. */
  lemma SpanPositions(s: string, p: nat, hex: string, t: string, b: string)
    requires p <= |s| && s[p..] == (ColorOpen + hex + "]") + (t + (ColorClose + b))
    ensures var q := p + 8 + |hex|;
      q + |t| <= |s| && ColorOpen + hex + "]" <= s[p..] && s[p + 7..q - 1] == hex
      && s[q..] == t + (ColorClose + b) && s[q..q + |t|] == t && |s| - |b| == q + |t| + |ColorClose|
  {
    var tag := ColorOpen + hex + "]";
    assert |tag| == 8 + |hex|;
    SpanSlices(s, p, tag, t, ColorClose + b);
    TagHex(s, p, hex);
  }

  /** The colour group of a tag found at `p`. */
  lemma TagHex(s: string, p: nat, hex: string)
    requires p + 8 + |hex| <= |s| && s[p..p + 8 + |hex|] == ColorOpen + hex + "]"
    ensures s[p + 7..p + 7 + |hex|] == hex
  {
    var tag := ColorOpen + hex + "]";
    forall k | 0 <= k < |hex| ensures s[p + 7 + k] == hex[k] {
      assert s[p + 7 + k] == s[p..p + 8 + |hex|][7 + k] == tag[7 + k];
    }
  }

  /** The search reports the first position at which a span matches. */
  lemma SearchAt(s: string, p: nat, m: ColorMatch)
    requires p <= |s| && MatchAt(s, p) == Some(m)
    requires forall k :: 0 <= k < p ==> MatchAt(s, k).None?
    ensures Search(s) == Some(m)
  {
  }

  /**
   * The first span after text free of `[/color]`, holding text free of both tags, is the
   * leftmost innermost match: INNERMOST_COLOR_RE.search finds exactly it.
   */
  lemma SearchFindsSpan(a: string, hex: string, t: string, b: string)
    requires Avoids(a, ColorClose) && IsColorHex(hex)
    requires Avoids(t, ColorOpen) && Avoids(t, ColorClose)
    ensures var s := a + ColorOpen + hex + "]" + t + ColorClose + b;
      Search(s) == Some(ColorMatch(|a|, hex, t, |s| - |b|))
  {
    var rest := (ColorOpen + hex + "]") + (t + (ColorClose + b));
    var s := a + rest;
    SpanAssociates(a, hex, t, b);
    DropPrefix(a, rest);
    AvoidsCount(t, ColorOpen);
    AvoidsCount(t, ColorClose);
    MatchAtSpan(s, |a|, hex, t, b);
    forall p | 0 <= p < |a| ensures MatchAt(s, p).None? {
      NoMatchBefore(a, rest, p);
    }
    SearchAt(s, |a|, ColorMatch(|a|, hex, t, |s| - |b|));
  }

  /** Only regroups a concatenation: the span written left to right, grouped as the matcher reads it. */
  lemma SpanAssociates(a: string, hex: string, t: string, b: string)
    ensures a + ColorOpen + hex + "]" + t + ColorClose + b == a + ((ColorOpen + hex + "]") + (t + (ColorClose + b)))
  {
  }

  /** Only a slicing step: dropping a prefix leaves what follows it. */
  lemma DropPrefix(a: string, rest: string)
    ensures (a + rest)[|a|..] == rest
  {
  }

  /** Rendering rewrites that span first, leaving what surrounds it as it was. */
  lemma RenderRewritesSpan(a: string, hex: string, t: string, b: string)
    requires Avoids(a, ColorClose) && IsColorHex(hex)
    requires Avoids(t, ColorOpen) && Avoids(t, ColorClose)
    ensures ColorStep(a + ColorOpen + hex + "]" + t + ColorClose + b)
         == Some(a + AnsiOpen(hex) + t + AnsiReset + b)
    ensures RenderColors(a + ColorOpen + hex + "]" + t + ColorClose + b)
         == RenderColors(a + AnsiOpen(hex) + t + AnsiReset + b)
  {
    var s := a + ColorOpen + hex + "]" + t + ColorClose + b;
    SearchFindsSpan(a, hex, t, b);
    var m := ColorMatch(|a|, hex, t, |s| - |b|);
    assert s[..|a|] == a;
    assert s[|s| - |b|..] == b;
    Regroup(a, AnsiOpen(hex), t, AnsiReset, b);
  }

  // ---------------------------------------------------------------------------------
  // Text that passes through
  // ---------------------------------------------------------------------------------

  /** Text without `[color=` comes out of the colour pass unchanged. */
  lemma RenderWithoutOpenTag(s: string)
    requires Count(s, ColorOpen) == 0
    ensures RenderColors(s) == s
  {
  }

  /** Text without `[/color]` (an unterminated span, say) comes out unchanged. */
  lemma RenderWithoutCloseTag(s: string)
    requires Count(s, ColorClose) == 0
    ensures RenderColors(s) == s
  {
  }

  /** A rendered string holds no span that could still be rewritten: rendering is idempotent. */
  lemma RenderIdempotent(s: string)
    ensures RenderColors(RenderColors(s)) == RenderColors(s)
  {
  }

  // ---------------------------------------------------------------------------------
  // Well-nested colour markup
  // ---------------------------------------------------------------------------------

  /** A tree of colour spans over plain text. */
  datatype Span = Text(text: string) | Colored(hex: string, body: seq<Span>)

  /** Text that holds neither colour tag, even partly at its end. */
  ghost predicate Plain(t: string) {
    Avoids(t, ColorOpen) && Avoids(t, ColorClose)
  }

  ghost predicate WellFormed(ns: seq<Span>)
    decreases ns
  {
    ns == [] || (WellFormedSpan(ns[0]) && WellFormed(ns[1..]))
  }

  ghost predicate WellFormedSpan(n: Span)
    decreases n
  {
    match n
    case Text(t) => Plain(t)
    case Colored(hex, body) => IsColorHex(hex) && WellFormed(body)
  }

  /** The markup a tree is written as. */
  function Tagged(ns: seq<Span>): string
    decreases ns
  {
    if ns == [] then [] else TaggedSpan(ns[0]) + Tagged(ns[1..])
  }

  function TaggedSpan(n: Span): string
    decreases n
  {
    match n
    case Text(t) => t
    case Colored(hex, body) => ColorOpen + hex + "]" + Tagged(body) + ColorClose
  }

  /** The terminal text a tree stands for: each span an escape, its body, a reset. */
  function Rendered(ns: seq<Span>): string
    requires WellFormed(ns)
    decreases ns
  {
    if ns == [] then [] else RenderedSpan(ns[0]) + Rendered(ns[1..])
  }

  function RenderedSpan(n: Span): string
    requires WellFormedSpan(n)
    decreases n
  {
    match n
    case Text(t) => t
    case Colored(hex, body) => AnsiOpen(hex) + Rendered(body) + AnsiReset
  }

  /** Rendered text holds neither colour tag. */
  lemma {:induction false} RenderedIsPlain(ns: seq<Span>)
    requires WellFormed(ns)
    ensures Plain(Rendered(ns))
    decreases ns
  {
    if ns != [] {
      RenderedSpanIsPlain(ns[0]);
      RenderedIsPlain(ns[1..]);
      AvoidsConcat(RenderedSpan(ns[0]), Rendered(ns[1..]), ColorOpen);
      AvoidsConcat(RenderedSpan(ns[0]), Rendered(ns[1..]), ColorClose);
    }
  }

  lemma {:induction false} RenderedSpanIsPlain(n: Span)
    requires WellFormedSpan(n)
    ensures Plain(RenderedSpan(n))
    decreases n
  {
    match n
    case Text(t) =>
    case Colored(hex, body) =>
      RenderedIsPlain(body);
      AnsiAvoidsTags(hex, ColorOpen);
      AnsiAvoidsTags(hex, ColorClose);
      AvoidsConcat(AnsiOpen(hex), Rendered(body), ColorOpen);
      AvoidsConcat(AnsiOpen(hex), Rendered(body), ColorClose);
      AvoidsConcat(AnsiOpen(hex) + Rendered(body), AnsiReset, ColorOpen);
      AvoidsConcat(AnsiOpen(hex) + Rendered(body), AnsiReset, ColorClose);
  }

  /** An opening tag holds no `[/color]`, even partly. */
  lemma OpenTagAvoidsClose(hex: string)
    requires IsColorHex(hex)
    ensures Avoids(ColorOpen + hex + "]", ColorClose)
  {
    var tail := ColorOpen[1..] + hex + "]";
    assert '[' !in tail;
    AvoidsWithoutHead(tail, ColorClose);
    assert (['['] + tail)[1] == 'c';
    AvoidsCons('[', tail, ColorClose);
    assert ColorOpen + hex + "]" == ['['] + tail;
  }

  /** Only regroups a concatenation: moves the boundary between a context and the pieces it surrounds. */
  lemma Shift(a: string, x: string, y: string, b: string)
    ensures a + (x + y) + b == a + x + (y + b)
    ensures a + x + (y + b) == (a + x) + y + b
  {
  }

  /**
   * Rendering a sequence of well-nested spans, in any context whose left part holds no
   * `[/color]`, gives the same result as rendering their ANSI form in that context.
   */
  lemma {:induction false} RenderSpansInContext(a: string, ns: seq<Span>, b: string)
    requires Avoids(a, ColorClose) && WellFormed(ns)
    ensures RenderColors(a + Tagged(ns) + b) == RenderColors(a + Rendered(ns) + b)
    decreases ns
  {
    if ns != [] {
      var head, tail := ns[0], ns[1..];
      var th, tt := TaggedSpan(head), Tagged(tail);
      var rh, rt := RenderedSpan(head), Rendered(tail);
      assert Tagged(ns) == th + tt;
      assert Rendered(ns) == rh + rt;
      RenderSpanInContext(a, head, tt + b);
      RenderedSpanIsPlain(head);
      AvoidsConcat(a, rh, ColorClose);
      RenderSpansInContext(a + rh, tail, b);
      Shift(a, th, tt, b);
      Shift(a, rh, tt, b);
      Shift(a, rh, rt, b);
    }
  }

  lemma {:induction false} RenderSpanInContext(a: string, n: Span, b: string)
    requires Avoids(a, ColorClose) && WellFormedSpan(n)
    ensures RenderColors(a + TaggedSpan(n) + b) == RenderColors(a + RenderedSpan(n) + b)
    decreases n
  {
    match n
    case Text(t) =>
    case Colored(hex, body) =>
      var tag := ColorOpen + hex + "]";
      var tb, rb := Tagged(body), Rendered(body);
      OpenTagAvoidsClose(hex);
      AvoidsConcat(a, tag, ColorClose);
      RenderSpansInContext(a + tag, body, ColorClose + b);
      RenderedIsPlain(body);
      RenderRewritesSpan(a, hex, rb, b);
      SpanShape(a, tag, tb, b);
      SpanShape(a, tag, rb, b);
      assert TaggedSpan(n) == tag + tb + ColorClose;
      assert RenderedSpan(n) == AnsiOpen(hex) + rb + AnsiReset;
      GroupTag(a, ColorOpen, hex, "]");
      SpanShape(a, AnsiOpen(hex), rb, b);
  }

  /** Only regroups a concatenation: the three parts of an opening tag as one piece. */
  lemma GroupTag(a: string, x: string, y: string, z: string)
    ensures a + x + y + z == a + (x + y + z)
  {
  }

  /** Only regroups a concatenation: the ways a span between a context's two halves can be grouped. */
  lemma SpanShape(a: string, open: string, body: string, b: string)
    ensures a + (open + body + ColorClose) + b == (a + open) + body + (ColorClose + b)
    ensures a + (open + body + AnsiReset) + b == a + open + body + AnsiReset + b
    ensures (a + open) + body + (ColorClose + b) == a + open + body + ColorClose + b
  {
  }

  /**
   * Well-nested colour markup renders innermost first into properly nested ANSI pairs:
   * each span becomes its escape, its rendered body, and a reset, followed by any text
   * without `[color=` (a stray `[/color]`, say) left as it was.
   */
  lemma RenderSpans(ns: seq<Span>, b: string)
    requires WellFormed(ns) && Count(b, ColorOpen) == 0
    ensures RenderColors(Tagged(ns) + b) == Rendered(ns) + b
  {
    RenderSpansInContext([], ns, b);
    EmptyContext(Tagged(ns), b);
    EmptyContext(Rendered(ns), b);
    RenderedThenPlain(ns, b);
    RenderWithoutOpenTag(Rendered(ns) + b);
  }

  /** Only regroups a concatenation: an empty context adds nothing. */
  lemma EmptyContext(x: string, b: string)
    ensures [] + x + b == x + b
  {
  }

  /** Rendered spans followed by text without `[color=` hold no `[color=`. */
  lemma RenderedThenPlain(ns: seq<Span>, b: string)
    requires WellFormed(ns) && Count(b, ColorOpen) == 0
    ensures Count(Rendered(ns) + b, ColorOpen) == 0
  {
    RenderedIsPlain(ns);
    AvoidsCount(Rendered(ns), ColorOpen);
    AvoidsNoStraddle(Rendered(ns), b, ColorOpen);
    CountConcat(Rendered(ns), b, ColorOpen);
  }

  // ---------------------------------------------------------------------------------
  // Font tags
  // ---------------------------------------------------------------------------------

  /** A string that avoids `pat` still avoids it without its first character. */
  lemma AvoidsTail(a: string, pat: string)
    requires a != [] && Avoids(a, pat)
    ensures Avoids(a[1..], pat)
  {
    forall i | 0 <= i < |a[1..]| ensures !(pat <= a[1..][i..]) && !(a[1..][i..] <= pat) {
      assert a[1..][i..] == a[i + 1..];
    }
  }

  /** Text in which no `[font=` starts is kept as it is, whatever follows it. */
  lemma {:induction false} StripKeepsPlainPrefix(a: string, b: string)
    requires Avoids(a, FontOpenHead)
    ensures StripFontTags(a + b) == a + StripFontTags(b)
  {
    if a == [] {
      assert a + b == b;
    } else {
      var s := a + b;
      AvoidsFollowed(a, b, FontOpenHead, 0);
      assert s[0..] == s;
      StripKeepsHead(s);
      assert s[0] == a[0] && s[1..] == a[1..] + b;
      AvoidsTail(a, FontOpenHead);
      StripKeepsPlainPrefix(a[1..], b);
      HeadRegroup(a, StripFontTags(b));
    }
  }

  /** Only regroups a concatenation: the head of `a`, then the rest of `a` and `r`. */
  lemma HeadRegroup(a: string, r: string)
    requires a != []
    ensures [a[0]] + (a[1..] + r) == a + r
  {
    assert a == [a[0]] + a[1..];
  }

  /** Where no `[font=` starts, the scan keeps the first character and moves on. */
  lemma StripKeepsHead(s: string)
    requires s != [] && !(FontOpenHead <= s)
    ensures StripFontTags(s) == [s[0]] + StripFontTags(s[1..])
  {
    assert FontTagLength(s).None?;
  }

  /** A complete `[font=NAME]` tag, NAME non-empty and free of `]`, is deleted outright. */
  lemma StripRemovesTag(name: string, b: string)
    requires name != [] && ']' !in name
    ensures StripFontTags(FontOpenHead + name + "]" + b) == StripFontTags(b)
  {
    var s := FontOpenHead + name + "]" + b;
    var n := 7 + |name|;
    assert s[6] == name[0];
    assert s[n - 1] == ']';
    assert s[7..][n - 8] == ']';
    assert forall k :: 6 <= k < n - 1 ==> s[k] == name[k - 6];
    assert FontTagLength(s) == Some(n);
    assert s[n..] == b;
  }

  /**
   * A recognised font tag is `[font=`, then a non-empty name free of `]`, then the
   * first `]` after the name; `StripRemovesTag` is the converse.
   */
  lemma FontTagShape(s: string)
    ensures FontTagLength(s).Some? ==>
      var n := FontTagLength(s).value;
      FontOpenHead <= s && 7 < n <= |s| && s[n - 1] == ']'
      && forall k :: 6 <= k < n - 1 ==> s[k] != ']'
  {
  }

  /** `[font=]` has an empty name: it is no tag, and the scan keeps it. */
  lemma EmptyFontNameSurvives(b: string)
    ensures FontTagLength("[font=]" + b).None?
    ensures StripFontTags("[font=]" + b) == "[font=]" + StripFontTags(b)
  {
    var s := "[font=]" + b;
    assert s[6] == ']';
    assert FirstIndexOf(s, ']', 6) == Some(6);
    assert s[1..] == "font=]" + b;
    AvoidsWithoutHead("font=]", FontOpenHead);
    StripKeepsPlainPrefix("font=]", b);
  }

  /** Text without `]` holds no font tag, so a tag left unterminated survives the scan. */
  lemma StripKeepsUnclosed(s: string)
    requires ']' !in s
    ensures StripFontTags(s) == s
  {
    forall i | 0 <= i <= |s| ensures FontTagLength(s[i..]).None? {
      FontTagShape(s[i..]);
      assert forall k :: 0 <= k < |s[i..]| ==> s[i..][k] in s;
    }
    StripKeepsAll(s);
  }

  /** Wherever a `[font=` tag starts, the scan deletes at least one character. */
  lemma {:induction false} StripShortens(s: string, i: nat)
    requires i <= |s| && FontTagLength(s[i..]).Some?
    ensures |StripFontTags(s)| < |s|
  {
    assert s != [] by {
      assert |s[i..]| > 7;
    }
    if FontTagLength(s).None? {
      assert i != 0 by {
        assert s[0..] == s;
      }
      assert s[1..][i - 1..] == s[i..];
      StripShortens(s[1..], i - 1);
    }
  }

  /** Where no `[font=` tag starts, the scan keeps every character. */
  lemma {:induction false} StripKeepsAll(s: string)
    requires forall i :: 0 <= i <= |s| ==> FontTagLength(s[i..]).None?
    ensures StripFontTags(s) == s
  {
    if s != [] {
      assert s[0..] == s;
      forall i | 0 <= i <= |s[1..]| ensures FontTagLength(s[1..][i..]).None? {
        assert s[1..][i..] == s[i + 1..];
      }
      StripKeepsAll(s[1..]);
      assert s == [s[0]] + s[1..];
    }
  }

  /** `FONT_OPEN_RE.sub` changes a string exactly when a font-open tag starts somewhere in it. */
  lemma StripUnchanged(s: string)
    ensures StripFontTags(s) == s <==> forall i :: 0 <= i <= |s| ==> FontTagLength(s[i..]).None?
  {
    if forall i :: 0 <= i <= |s| ==> FontTagLength(s[i..]).None? {
      StripKeepsAll(s);
    } else {
      var i :| 0 <= i <= |s| && FontTagLength(s[i..]).Some?;
      StripShortens(s, i);
    }
  }

  /** Wherever `pat` starts, one `replace` pass deletes at least one character. */
  lemma {:induction false} DeleteShortens(s: string, pat: string, i: nat)
    requires pat != [] && i < |s| && pat <= s[i..]
    ensures |DeleteAll(s, pat)| < |s|
  {
    if !(pat <= s) {
      assert i != 0 by {
        assert s[0..] == s;
      }
      assert s[1..][i - 1..] == s[i..];
      DeleteShortens(s[1..], pat, i - 1);
    }
  }

  /** Where `pat` never occurs, one `replace` pass keeps every character. */
  lemma {:induction false} DeleteKeepsAll(s: string, pat: string)
    requires pat != [] && Count(s, pat) == 0
    ensures DeleteAll(s, pat) == s
  {
    if s != [] {
      CountZero(s, pat);
      assert s[0..] == s;
      assert !(pat <= s);
      DeleteKeepsAll(s[1..], pat);
      assert s == [s[0]] + s[1..];
    }
  }

  /** `str.replace(pat, "")` changes a string exactly when `pat` occurs in it. */
  lemma DeleteUnchanged(s: string, pat: string)
    requires pat != []
    ensures DeleteAll(s, pat) == s <==> Count(s, pat) == 0
  {
    CountZero(s, pat);
    if Count(s, pat) == 0 {
      DeleteKeepsAll(s, pat);
    } else {
      var i :| 0 <= i < |s| && pat <= s[i..];
      DeleteShortens(s, pat, i);
    }
  }

  /** Strings that differ at some position are not prefixes of one another. */
  lemma Mismatch(x: string, y: string, k: nat)
    requires k < |x| && k < |y| && x[k] != y[k]
    ensures !(x <= y)
  {
  }

  /** Text in which no occurrence of `pat` starts is kept by `replace`, whatever follows it. */
  lemma {:induction false} DeleteKeepsHead(x: string, rest: string, pat: string)
    requires pat != [] && forall k :: 0 <= k < |x| ==> !(pat <= (x + rest)[k..])
    ensures DeleteAll(x + rest, pat) == x + DeleteAll(rest, pat)
  {
    if x != [] {
      assert (x + rest)[0..] == x + rest;
      assert (x + rest)[1..] == x[1..] + rest;
      forall k | 0 <= k < |x[1..]| ensures !(pat <= (x[1..] + rest)[k..]) {
        assert (x[1..] + rest)[k..] == (x + rest)[k + 1..];
      }
      DeleteKeepsHead(x[1..], rest, pat);
      assert x == [x[0]] + x[1..];
    }
  }

  /**
   * One `replace` pass can leave a `[/font]` behind: deleting the inner one of
   * `[/fo[/font]nt]` joins the outer halves into a new one.
   */
  lemma DeleteIsOnePass()
    ensures DeleteAll("[/fo[/font]nt]", FontClose) == FontClose
  {
    var x, y := "[/fo", "nt]";
    var s := x + (FontClose + y);
    forall k | 0 <= k < |x| ensures !(FontClose <= s[k..]) {
      if k == 0 {
        assert s[k..][4] == '[';
        Mismatch(FontClose, s[k..], 4);
      } else {
        assert s[k..][0] == x[k];
        Mismatch(FontClose, s[k..], 0);
      }
    }
    DeleteKeepsHead(x, FontClose + y, FontClose);
    assert (FontClose + y)[|FontClose|..] == y;
    AvoidsWithoutHead(y, FontClose);
    AvoidsCount(y, FontClose);
    DeleteKeepsAll(y, FontClose);
    FontCloseHalves();
  }

  /** `[/fo[/font]nt]` is `[/font]` cut in two around a whole `[/font]`. */
  lemma FontCloseHalves()
    ensures "[/fo" + (FontClose + "nt]") == "[/fo[/font]nt]"
    ensures "[/fo" + "nt]" == FontClose
  {
  }

  /** Text without `[` passes through the whole of `pretty_print_markup` unchanged. */
  lemma PrettyMarkupPlain(s: string)
    requires '[' !in s
    ensures PrettyMarkup(s) == s
  {
    forall i | 0 <= i <= |s| ensures FontTagLength(s[i..]).None? {
      if i < |s| {
        assert s[i..][0] == s[i];
      }
    }
    StripKeepsAll(s);
    AvoidsWithoutHead(s, FontClose);
    AvoidsCount(s, FontClose);
    DeleteKeepsAll(s, FontClose);
    AvoidsWithoutHead(s, ColorOpen);
    AvoidsCount(s, ColorOpen);
  }

  /**
   * Text holding no `[font=`, no `[/font]`, and no `[color=` or no `[/color]` passes
   * through `pretty_print_markup` unchanged, whatever other brackets it has (`a [b] c`).
   */
  lemma PrettyMarkupUntagged(s: string)
    requires Count(s, FontOpenHead) == 0 && Count(s, FontClose) == 0
    requires Count(s, ColorOpen) == 0 || Count(s, ColorClose) == 0
    ensures PrettyMarkup(s) == s
  {
    CountZero(s, FontOpenHead);
    forall i | 0 <= i <= |s| ensures FontTagLength(s[i..]).None? {
      FontTagShape(s[i..]);
    }
    StripUnchanged(s);
    DeleteUnchanged(s, FontClose);
    if Count(s, ColorOpen) == 0 {
      RenderWithoutOpenTag(s);
    } else {
      RenderWithoutCloseTag(s);
    }
  }

  /** A line with bracketed words but no tags is printed as it is. */
  lemma PrettyMarkupBrackets()
    ensures PrettyMarkup("a [b] c") == "a [b] c"
  {
    var s := "a [b] c";
    assert s[2..] == "[b] c";
    assert forall i :: 0 <= i < |s| && i != 2 ==> s[i] != '[';
    forall pat | pat == FontOpenHead || pat == FontClose || pat == ColorOpen
      ensures Count(s, pat) == 0
    {
      CountZero(s, pat);
      assert forall i :: 0 <= i < |s| && i != 2 ==> !(pat <= s[i..]) by {
        forall i | 0 <= i < |s| && i != 2 ensures !(pat <= s[i..]) {
          assert s[i..][0] == s[i];
        }
      }
      assert s[2..][1] == 'b';
    }
    PrettyMarkupUntagged(s);
  }

  // ---------------------------------------------------------------------------------
  // Colour values
  // ---------------------------------------------------------------------------------

  /** An 8-digit `#AARRGGBB` (or a 7-digit) code renders like the `#RRGGBB` made of its last six digits. */
  lemma AlphaIgnored(hex: string)
    requires IsColorHex(hex)
    ensures IsColorHex("#" + hex[|hex| - 6..])
    ensures AnsiOpen(hex) == AnsiOpen("#" + hex[|hex| - 6..])
  {
    var short := "#" + hex[|hex| - 6..];
    assert short[|short| - 6..] == hex[|hex| - 6..];
  }

  /** The escape carries the red, green and blue bytes of the code, each written in decimal. */
  lemma AnsiOpenChannels(hex: string)
    requires IsColorHex(hex)
    ensures var n := |hex|;
      AnsiOpen(hex) == TrueColor(HexByte(hex[n - 6], hex[n - 5]), HexByte(hex[n - 4], hex[n - 3]), HexByte(hex[n - 2], hex[n - 1]))
  {
  }
}
