/**
 * The two halves together: what `pretty_print_markup` shows for the text of a generated
 * condition. The font tag and its closing tag disappear, each tinted part of the bar
 * becomes an ANSI colour escape, the glyphs and the reset, and the caption follows.
 */
module Preview {
  import opened Wrappers
  import opened Occurrences
  import opened Numerals
  import opened PyStr
  import opened Markup
  import opened MarkupProperties
  import opened Progress

  /** What a terminal shows for a segment the generator tinted: escape, glyphs, reset. */
  function Shaded(cmap: Option<ColorMap>, num: int, den: int, segment: string): string
    requires cmap.Some? ==> IsColorHex(cmap.value(num, den))
  {
    if cmap.Some? && segment != [] then AnsiOpen(cmap.value(num, den)) + segment + AnsiReset else segment
  }

  /** A segment the generator tinted, as a colour span over plain text. */
  function TintSpan(cmap: Option<ColorMap>, num: int, den: int, segment: string): Span {
    if cmap.Some? && segment != [] then Colored(cmap.value(num, den), [Text(segment)]) else Text(segment)
  }

  /** A colour code holds no `[`. */
  lemma ColorHexNoBracket(hex: string)
    requires IsColorHex(hex)
    ensures '[' !in hex
  {
    forall i | 0 <= i < |hex| ensures hex[i] != '[' {
      if i > 0 {
        assert IsHexDigit(hex[i]);
      }
    }
  }

  /** A tinted segment is written as its span, which is well nested, and shows as its escape. */
  lemma TintSpanShape(cmap: Option<ColorMap>, num: int, den: int, segment: string)
    requires cmap.Some? ==> IsColorHex(cmap.value(num, den))
    requires '[' !in segment
    ensures WellFormedSpan(TintSpan(cmap, num, den, segment))
    ensures TaggedSpan(TintSpan(cmap, num, den, segment)) == Tinted(cmap, num, den, segment)
    ensures RenderedSpan(TintSpan(cmap, num, den, segment)) == Shaded(cmap, num, den, segment)
  {
    AvoidsWithoutHead(segment, ColorOpen);
    AvoidsWithoutHead(segment, ColorClose);
    if cmap.Some? && segment != [] {
      var body := [Text(segment)];
      assert body[1..] == [];
      assert WellFormedSpan(body[0]) && WellFormed(body[1..]);
      assert WellFormed(body);
      assert Tagged(body) == segment;
      assert Rendered(body) == segment;
    }
  }

  /**
   * A string that starts with `[`, has no other `[`, and differs from `pat` (also starting
   * with `[`) at some later position, neither holds `pat` nor ends with a start of it.
   */
  lemma TagAvoids(t: string, pat: string, k: nat)
    requires t != [] && t[0] == '[' && '[' !in t[1..]
    requires pat != [] && pat[0] == '['
    requires 0 < k < |t| && k < |pat| && t[k] != pat[k]
    ensures Avoids(t, pat)
  {
    AvoidsWithoutHead(t[1..], pat);
    Mismatch(pat, t, k);
    Mismatch(t, pat, k);
    assert t == [t[0]] + t[1..];
    AvoidsCons(t[0], t[1..], pat);
  }

  /** A tinted segment holds no font tag, opening or closing, even partly at its end. */
  lemma TintedAvoids(cmap: Option<ColorMap>, num: int, den: int, segment: string, pat: string)
    requires cmap.Some? ==> IsColorHex(cmap.value(num, den))
    requires '[' !in segment
    requires pat == FontOpenHead || pat == FontClose
    ensures Avoids(Tinted(cmap, num, den, segment), pat)
  {
    AvoidsWithoutHead(segment, pat);
    if cmap.Some? && segment != [] {
      var hex := cmap.value(num, den);
      var open := "[color=" + hex + "]";
      ColorHexNoBracket(hex);
      assert open[1..] == "color=" + hex + "]";
      TagAvoids(open, pat, 1);
      if pat == FontOpenHead {
        TagAvoids("[/color]", pat, 1);
      } else {
        TagAvoids("[/color]", pat, 2);
      }
      AvoidsConcat(open, segment, pat);
      AvoidsConcat(open + segment, "[/color]", pat);
    }
  }

  /** `[font=technology-slot-level-font]` is a font tag with a non-empty name. */
  lemma FontTagParts()
    ensures FontTag == FontOpenHead + "technology-slot-level-font" + "]"
    ensures FontEnd == FontClose
  {
  }

  /** The closing font tag, two spaces and a caption without `[` hold no `[font=`. */
  lemma ClosingAvoids(caption: string)
    requires '[' !in caption
    ensures Avoids(FontEnd + ("  " + caption), FontOpenHead)
  {
    var tail := FontEnd + ("  " + caption);
    assert tail[0] == '[' && tail[1] == '/';
    assert tail[1..] == "/font]" + ("  " + caption);
    TagAvoids(tail, FontOpenHead, 1);
  }

  /**
   * Stripping `[font=...]` from a text made of a plain part, one font tag and a rest
   * without `[font=` removes the tag and keeps everything else.
   */
  lemma StripStage(p: string, name: string, rest: string)
    requires name != [] && ']' !in name
    requires Avoids(p, FontOpenHead) && Avoids(rest, FontOpenHead)
    ensures StripFontTags(p + ((FontOpenHead + name + "]") + rest)) == p + rest
  {
    StripKeepsPlainPrefix(p, (FontOpenHead + name + "]") + rest);
    StripRemovesTag(name, rest);
    StripKeepsPlainPrefix(rest, []);
    assert rest + [] == rest;
  }

  /** Deleting `[/font]` from a text holding it once, before a tail without `[`, removes just that. */
  lemma DeleteStage(q: string, tail: string)
    requires Avoids(q, FontClose) && '[' !in tail
    ensures DeleteAll(q + (FontClose + tail), FontClose) == q + tail
  {
    forall k | 0 <= k < |q| ensures !(FontClose <= (q + (FontClose + tail))[k..]) {
      AvoidsFollowed(q, FontClose + tail, FontClose, k);
    }
    DeleteKeepsHead(q, FontClose + tail, FontClose);
    assert (FontClose + tail)[|FontClose|..] == tail;
    AvoidsWithoutHead(tail, FontClose);
    AvoidsCount(tail, FontClose);
    DeleteKeepsAll(tail, FontClose);
  }

  /** A list of three spans is written, and rendered, as its three spans one after another. */
  lemma ThreeSpans(a: Span, b: Span, c: Span)
    ensures Tagged([a, b, c]) == TaggedSpan(a) + (TaggedSpan(b) + TaggedSpan(c))
    ensures WellFormed([a, b, c]) <==> WellFormedSpan(a) && WellFormedSpan(b) && WellFormedSpan(c)
    ensures WellFormed([a, b, c]) ==>
      Rendered([a, b, c]) == RenderedSpan(a) + (RenderedSpan(b) + RenderedSpan(c))
  {
    var ns := [a, b, c];
    assert [c][1..] == [];
    assert Tagged([c]) == TaggedSpan(c);
    assert [b, c][1..] == [c];
    assert Tagged([b, c]) == TaggedSpan(b) + TaggedSpan(c);
    assert ns[1..] == [b, c];
    assert WellFormed([c]) <==> WellFormedSpan(c);
    assert WellFormed([b, c]) <==> WellFormedSpan(b) && WellFormedSpan(c);
    if WellFormed(ns) {
      assert Rendered([c]) == RenderedSpan(c);
      assert Rendered([b, c]) == RenderedSpan(b) + RenderedSpan(c);
    }
  }

  /** Rendering the colours of the prefix, the two tinted parts and the caption. */
  lemma RenderStage(cmap: Option<ColorMap>, p: string, n1: int, n2: int, den: int, s1: string, s2: string, tail: string)
    requires cmap.Some? ==> IsColorHex(cmap.value(n1, den)) && IsColorHex(cmap.value(n2, den))
    requires Avoids(p, ColorOpen) && Avoids(p, ColorClose)
    requires '[' !in s1 && '[' !in s2 && '[' !in tail
    ensures RenderColors(p + (Tinted(cmap, n1, den, s1) + Tinted(cmap, n2, den, s2)) + tail)
         == p + (Shaded(cmap, n1, den, s1) + Shaded(cmap, n2, den, s2)) + tail
  {
    var t1, t2 := TintSpan(cmap, n1, den, s1), TintSpan(cmap, n2, den, s2);
    TintSpanShape(cmap, n1, den, s1);
    TintSpanShape(cmap, n2, den, s2);
    ThreeSpans(Text(p), t1, t2);
    AvoidsWithoutHead(tail, ColorOpen);
    AvoidsCount(tail, ColorOpen);
    RenderSpans([Text(p), t1, t2], tail);
  }

  /** Only regroups a concatenation of three strings. */
  lemma Assoc(a: string, b: string, c: string)
    ensures a + (b + c) == (a + b) + c
  {
  }

  /** Only regroups a concatenation: the six pieces of a condition text, grouped from the right. */
  lemma GroupConditionText(p: string, tag: string, x: string, close: string, sp: string, c: string)
    ensures p + tag + x + close + sp + c == p + (tag + (x + (close + (sp + c))))
  {
  }

  /** No glyph of the bar and no alignment filler is a `[`. */
  lemma BarNoBracket(length: int, step: int, pad: int)
    ensures '[' !in FilledGlyphs(step)
    ensures '[' !in Repeat(Full, RemainingBlocks(length, step)) + Repeat('0', pad)
  {
    RepeatChars(Full, Max(step / Divs, 0));
    RepeatChars(Full, RemainingBlocks(length, step));
    RepeatChars('0', pad);
    assert '[' !in Substeps;
  }

  /** The caption holds only characters of the formatted percentage, spaces and `%`. */
  lemma LabelNoBracket(percent: string)
    requires '[' !in percent
    ensures '[' !in Label(percent)
  {
    var padded := PaddedLabel(percent);
    RepeatChars(' ', 5 - |percent|);
    assert '[' !in padded;
    StripShape(padded);
  }

  /** Text that holds no font or colour tag, opening or closing, and ends with no start of one. */
  ghost predicate TagFree(p: string) {
    Avoids(p, FontOpenHead) && Avoids(p, FontClose) && Avoids(p, ColorOpen) && Avoids(p, ColorClose)
  }

  /** A rich-text icon, the usual prefix of a Factorio panel text, is tag-free. */
  lemma IconPrefixTagFree()
    ensures TagFree("[item=iron-plate] ")
  {
    var t := "[item=iron-plate] ";
    assert t[1..] == "item=iron-plate] ";
    TagAvoids(t, FontOpenHead, 1);
    TagAvoids(t, FontClose, 1);
    TagAvoids(t, ColorOpen, 1);
    TagAvoids(t, ColorClose, 1);
  }

  /**
   * `pretty_print_markup` applied to the text of the condition for loop value `step`
   * shows the prefix, the filled part and the rest of the bar (each in its colour when
   * there is a colour map and the part is non-empty), then two spaces and the caption.
   * The prefix may hold any text, rich-text icons such as `[item=iron-plate]` included,
   * that contains no font or colour tag and does not end with part of one; the formatted
   * percentage is assumed free of `[`.
   */
  lemma PreviewCondition(config: PBarConfig, format: PercentFormat, step: int)
    requires TagFree(config.prefix) && '[' !in format(step + 1, config.length * Divs)
    requires config.cmap.Some? ==>
      IsColorHex(config.cmap.value(step, config.length * Divs - 1))
      && IsColorHex(config.cmap.value(step + 1, config.length * Divs - 1))
    ensures var m := config.length * Divs; var percent := format(step + 1, m);
      PrettyMarkup(ConditionText(config, format, step))
      == config.prefix
         + Shaded(config.cmap, step, m - 1, FilledGlyphs(step))
         + Shaded(config.cmap, step + 1, m - 1,
             Repeat(Full, RemainingBlocks(config.length, step)) + Repeat('0', LabelPadding(percent)))
         + "  " + Label(percent)
  {
    var m := config.length * Divs;
    var percent := format(step + 1, m);
    var p, caption := config.prefix, Label(percent);
    var s1 := FilledGlyphs(step);
    var s2 := Repeat(Full, RemainingBlocks(config.length, step)) + Repeat('0', LabelPadding(percent));
    var b := Tinted(config.cmap, step, m - 1, s1);
    var e := Tinted(config.cmap, step + 1, m - 1, s2);
    BarNoBracket(config.length, step, LabelPadding(percent));
    LabelNoBracket(percent);
    TintedAvoids(config.cmap, step, m - 1, s1, FontOpenHead);
    TintedAvoids(config.cmap, step + 1, m - 1, s2, FontOpenHead);
    AvoidsConcat(b, e, FontOpenHead);
    TintedAvoids(config.cmap, step, m - 1, s1, FontClose);
    TintedAvoids(config.cmap, step + 1, m - 1, s2, FontClose);
    AvoidsConcat(b, e, FontClose);
    var text := ConditionText(config, format, step);
    assert text == p + FontTag + (b + e) + FontEnd + "  " + caption;
    FontsGo(p, b + e, caption);
    assert PrettyMarkup(text) == RenderColors(p + (b + e) + ("  " + caption));
    RenderStage(config.cmap, p, step, step + 1, m - 1, s1, s2, "  " + caption);
    Ungroup(p, Shaded(config.cmap, step, m - 1, s1), Shaded(config.cmap, step + 1, m - 1, s2), "  ", caption);
  }

  /** Only regroups a concatenation: the rendered pieces, grouped from the left again. */
  lemma Ungroup(p: string, x: string, y: string, sp: string, c: string)
    ensures p + (x + y) + (sp + c) == p + x + y + sp + c
  {
  }

  /** Both font-stripping steps of `pretty_print_markup` on a condition text: only the two font tags go. */
  lemma FontsGo(p: string, x: string, caption: string)
    requires Avoids(p, FontOpenHead) && Avoids(p, FontClose)
    requires '[' !in caption && Avoids(x, FontOpenHead) && Avoids(x, FontClose)
    ensures DeleteAll(StripFontTags(p + FontTag + x + FontEnd + "  " + caption), FontClose)
         == p + x + ("  " + caption)
  {
    var tail := "  " + caption;
    FontTagParts();
    GroupConditionText(p, FontTag, x, FontEnd, "  ", caption);
    ClosingAvoids(caption);
    AvoidsConcat(x, FontEnd + tail, FontOpenHead);
    StripStage(p, "technology-slot-level-font", x + (FontEnd + tail));
    AvoidsConcat(p, x, FontClose);
    Assoc(p, x, FontClose + tail);
    DeleteStage(p + x, tail);
  }
}
