/**
 * The markup renderer of the test suite: it strips `[font=...]`/`[/font]` tags and rewrites
 * `[color=#H]...[/color]` spans, innermost first, into ANSI 24-bit colour escapes.
 * The two regular expressions are modelled by what they match, as functions on strings.
 */
module Markup {
  import opened Wrappers
  import opened Occurrences
  import opened Numerals

  const FontOpenHead: string := "[font="
  const FontClose: string := "[/font]"
  const ColorOpen: string := "[color="
  const ColorClose: string := "[/color]"
  const Esc: char := '\U{1B}'
  /** ANSI "reset all attributes". */
  const AnsiReset: string := [Esc] + "[0m"

  // ---------------------------------------------------------------------------------
  // Font tags
  // ---------------------------------------------------------------------------------

  /** Index of the first `c` in `s` at or after `from`. */
  function FirstIndexOf(s: string, c: char, from: nat): (r: Option<nat>)
    requires from <= |s|
    ensures r.Some? ==> from <= r.value < |s| && s[r.value] == c
    ensures forall k :: from <= k < (if r.Some? then r.value else |s|) ==> s[k] != c
    decreases |s| - from
  {
    if from == |s| then None
    else if s[from] == c then Some(from)
    else FirstIndexOf(s, c, from + 1)
  }

  /**
   * Length of the match of `\[font=[^\]]+\]` at the start of `s`, if there is one:
   * `[font=`, then one or more characters other than `]`, then `]`.
   */
  function FontTagLength(s: string): (r: Option<nat>)
    ensures r.Some? ==> 7 < r.value <= |s|
  {
    if FontOpenHead <= s && |s| > 6 then
      match FirstIndexOf(s, ']', 6)
      case Some(j) => if j > 6 then Some(j + 1) else None
      case None => None
    else None
  }

  /**
   * `FONT_OPEN_RE.sub("", s)`: one left-to-right scan that deletes every font-open tag
   * it meets and keeps every other character.
   */
  function StripFontTags(s: string): (r: string)
    ensures |r| <= |s|
    decreases |s|
  {
    if s == [] then []
    else match FontTagLength(s)
      case Some(n) => StripFontTags(s[n..])
      case None => [s[0]] + StripFontTags(s[1..])
  }

  /** `s.replace(pat, "")`: one left-to-right scan deleting non-overlapping occurrences. */
  function DeleteAll(s: string, pat: string): (r: string)
    requires pat != []
    ensures |r| <= |s|
    decreases |s|
  {
    if s == [] then []
    else if pat <= s then DeleteAll(s[|pat|..], pat)
    else [s[0]] + DeleteAll(s[1..], pat)
  }

  // ---------------------------------------------------------------------------------
  // Colour spans: INNERMOST_COLOR_RE
  // ---------------------------------------------------------------------------------

  /** The `hex` group: `#` and 6 to 8 hexadecimal digits. */
  predicate IsColorHex(h: string) {
    7 <= |h| <= 9 && h[0] == '#' && forall i :: 1 <= i < |h| ==> IsHexDigit(h[i])
  }

  /** Length of the run of hexadecimal digits of `s` starting at `i`. */
  function HexRun(s: string, i: nat): (n: nat)
    requires i <= |s|
    ensures i + n <= |s|
    ensures forall k :: i <= k < i + n ==> IsHexDigit(s[k])
    ensures i + n < |s| ==> !IsHexDigit(s[i + n])
    decreases |s| - i
  {
    if i < |s| && IsHexDigit(s[i]) then 1 + HexRun(s, i + 1) else 0
  }

  /**
   * End of the opening tag `[color=#H]` (H: 6 to 8 hex digits) that starts at `p`, if
   * one does. A run of more than 8 digits, or one not closed by `]`, is no tag.
   */
  function OpenTagEnd(s: string, p: nat): (r: Option<nat>)
    requires p <= |s|
    ensures r.Some? ==> p + 15 <= r.value <= p + 17 && r.value <= |s|
  {
    if "[color=#" <= s[p..] then
      var n := HexRun(s, p + 8);
      if 6 <= n <= 8 && p + 8 + n < |s| && s[p + 8 + n] == ']' then Some(p + 9 + n)
      else None
    else None
  }

  /** The colour group of a recognised opening tag is `#` and 6 to 8 hexadecimal digits. */
  lemma OpenTagHex(s: string, p: nat)
    requires p <= |s|
    ensures OpenTagEnd(s, p).Some? ==> IsColorHex(s[p + 7..OpenTagEnd(s, p).value - 1])
  {
    if OpenTagEnd(s, p).Some? {
      assert s[p..][7] == '#';
    }
  }

  /** A recognised opening tag is `[color=`, the colour group, and `]`. */
  lemma OpenTagShape(s: string, p: nat)
    requires p <= |s|
    ensures OpenTagEnd(s, p).Some? ==>
      var q := OpenTagEnd(s, p).value;
      s[p..q] == ColorOpen + s[p + 7..q - 1] + "]"
  {
    if OpenTagEnd(s, p).Some? {
      var q := OpenTagEnd(s, p).value;
      assert s[p..p + 7] == s[p..][..7] == ColorOpen;
      SliceParts(s, p, p + 7, q - 1, q);
    }
  }

  /**
   * The lazy `text` group followed by `\[/color\]`, from position `j`: the first `[/color]`
   * at or after `j`, provided no `[color=` starts before it.
   */
  function ContentEnd(s: string, j: nat): (r: Option<nat>)
    requires j <= |s|
    ensures r.Some? ==> j <= r.value && r.value + |ColorClose| <= |s| && ColorClose <= s[r.value..]
    ensures r.Some? ==> forall k :: j <= k < r.value ==> !(ColorOpen <= s[k..]) && !(ColorClose <= s[k..])
    decreases |s| - j
  {
    if ColorClose <= s[j..] then Some(j)
    else if ColorOpen <= s[j..] || j == |s| then None
    else ContentEnd(s, j + 1)
  }

  /** One match of INNERMOST_COLOR_RE: where it starts and ends, and its two groups. */
  datatype ColorMatch = ColorMatch(start: nat, hex: string, text: string, end: nat)

  /** The match of INNERMOST_COLOR_RE that starts at `p`, if there is one. */
  function MatchAt(s: string, p: nat): (r: Option<ColorMatch>)
    requires p <= |s|
    ensures r.Some? ==> r.value.start == p < r.value.end <= |s| && IsColorHex(r.value.hex)
  {
    match OpenTagEnd(s, p)
    case None => None
    case Some(q) =>
      match ContentEnd(s, q)
      case None => None
      case Some(e) =>
        OpenTagHex(s, p);
        Some(ColorMatch(p, s[p + 7..q - 1], s[q..e], e + |ColorClose|))
  }

  /** A match covers the opening tag with its colour, the text, and the closing tag. */
  lemma MatchAtShape(s: string, p: nat)
    requires p <= |s|
    ensures MatchAt(s, p).Some? ==>
      var m := MatchAt(s, p).value;
      s[p..m.end] == ColorOpen + m.hex + "]" + m.text + ColorClose
  {
    if MatchAt(s, p).Some? {
      var q := OpenTagEnd(s, p).value;
      var e := ContentEnd(s, q).value;
      assert s[e..e + |ColorClose|] == ColorClose;
      OpenTagShape(s, p);
      SliceParts(s, p, q, e, e + |ColorClose|);
    }
  }

  /** A slice cut at two inner points is the concatenation of its three parts. */
  lemma SliceParts(s: string, i: nat, j: nat, k: nat, l: nat)
    requires i <= j <= k <= l <= |s|
    ensures s[i..l] == s[i..j] + s[j..k] + s[k..l]
  {
  }

  /** The text of a match holds neither tag: the innermost condition of the regular expression. */
  lemma MatchTextHasNoTags(s: string, p: nat)
    requires p <= |s|
    ensures MatchAt(s, p).Some? ==>
      Count(MatchAt(s, p).value.text, ColorOpen) == 0 && Count(MatchAt(s, p).value.text, ColorClose) == 0
  {
    if MatchAt(s, p).Some? {
      var q := OpenTagEnd(s, p).value;
      ContentHasNoTags(s, q, ContentEnd(s, q).value);
    }
  }

  /** The text of a span holds neither tag. */
  lemma ContentHasNoTags(s: string, q: nat, e: nat)
    requires q <= e <= |s|
    requires forall k :: q <= k < e ==> !(ColorOpen <= s[k..]) && !(ColorClose <= s[k..])
    ensures Count(s[q..e], ColorOpen) == 0 && Count(s[q..e], ColorClose) == 0
  {
    var text := s[q..e];
    forall k | 0 <= k < |text| ensures !(ColorOpen <= text[k..]) && !(ColorClose <= text[k..]) {
      assert text[k..] <= s[q + k..];
    }
    CountZero(text, ColorOpen);
    CountZero(text, ColorClose);
  }

  /** `INNERMOST_COLOR_RE.search(s)` from position `p`: the leftmost match starting at or after `p`. */
  function SearchFrom(s: string, p: nat): (r: Option<ColorMatch>)
    requires p <= |s|
    ensures r.Some? ==> p <= r.value.start <= |s| && MatchAt(s, r.value.start) == r
    ensures r.Some? ==> forall k :: p <= k < r.value.start ==> MatchAt(s, k).None?
    ensures r.None? ==> forall k :: p <= k <= |s| ==> MatchAt(s, k).None?
    decreases |s| - p
  {
    var m := MatchAt(s, p);
    if m.Some? then m
    else if p == |s| then None
    else SearchFrom(s, p + 1)
  }

  /** `INNERMOST_COLOR_RE.search(s)`: the leftmost innermost colour span. */
  function Search(s: string): (r: Option<ColorMatch>)
    ensures r.Some? ==> r.value.start <= |s| && MatchAt(s, r.value.start) == r
    ensures r.Some? ==> forall k :: 0 <= k < r.value.start ==> MatchAt(s, k).None?
    ensures r.None? ==> forall k :: 0 <= k <= |s| ==> MatchAt(s, k).None?
  {
    SearchFrom(s, 0)
  }

  // ---------------------------------------------------------------------------------
  // ANSI escapes
  // ---------------------------------------------------------------------------------

  /** `ESC[38;2;r;g;bm`: set the 24-bit foreground colour, channels written in decimal. */
  function TrueColor(r: nat, g: nat, b: nat): string {
    [Esc] + "[38;2;" + Channels(r, g, b) + "m"
  }

  /** The three channels in decimal, separated by `;`. */
  function Channels(r: nat, g: nat, b: nat): string {
    Decimal(r) + ";" + Decimal(g) + ";" + Decimal(b)
  }

  /** The escape for a `hex` group: only its last six digits count, as red, green, blue. */
  function AnsiOpen(hex: string): string
    requires IsColorHex(hex)
  {
    var rgb := hex[|hex| - 6..];
    assert forall i :: 0 <= i < 6 ==> rgb[i] == hex[|hex| - 6 + i];
    TrueColor(HexByte(rgb[0], rgb[1]), HexByte(rgb[2], rgb[3]), HexByte(rgb[4], rgb[5]))
  }

  /** `s` with the span `m` replaced by its escape, its text and the reset escape. */
  function ApplyMatch(s: string, m: ColorMatch): string
    requires m.start <= m.end <= |s| && IsColorHex(m.hex)
  {
    s[..m.start] + (AnsiOpen(m.hex) + m.text + AnsiReset) + s[m.end..]
  }

  /** Only regroups a concatenation: the spliced escape, text and reset as one piece. */
  lemma Regroup(a: string, x: string, y: string, z: string, b: string)
    ensures a + (x + y + z) + b == a + x + y + z + b
  {
  }

  // ---------------------------------------------------------------------------------
  // Counting tags across a rewrite
  // ---------------------------------------------------------------------------------

  predicate IsColorTag(pat: string) {
    pat == ColorOpen || pat == ColorClose
  }

  /** Seams after `]`, `m` or `=`, or before `[` or ESC, cannot split a colour tag. */
  lemma CountJoin(a: string, b: string, pat: string)
    requires IsColorTag(pat)
    requires a == [] || b == [] || a[|a| - 1] in "]m=" || b[0] in [Esc, '[']
    ensures Count(a + b, pat) == Count(a, pat) + Count(b, pat)
  {
    NoStraddleAtSeam(a, b, pat);
    CountConcat(a, b, pat);
  }

  /** Each tag occurs once in itself and not at all in the other. */
  lemma TagCounts()
    ensures Count(ColorOpen, ColorOpen) == 1 && Count(ColorOpen, ColorClose) == 0
    ensures Count(ColorClose, ColorOpen) == 0 && Count(ColorClose, ColorClose) == 1
  {
    AvoidsWithoutHead(ColorOpen[1..], ColorOpen);
    AvoidsWithoutHead(ColorOpen[1..], ColorClose);
    AvoidsWithoutHead(ColorClose[1..], ColorOpen);
    AvoidsWithoutHead(ColorClose[1..], ColorClose);
  }

  /** The opening tag of a span holds exactly one `[color=` and no `[/color]`. */
  lemma OpenTagCounts(hex: string)
    requires IsColorHex(hex)
    ensures Count(ColorOpen + hex + "]", ColorOpen) == 1
    ensures Count(ColorOpen + hex + "]", ColorClose) == 0
  {
    assert '[' !in hex + "]";
    AvoidsWithoutHead(hex + "]", ColorOpen);
    AvoidsWithoutHead(hex + "]", ColorClose);
    AvoidsCount(hex + "]", ColorOpen);
    AvoidsCount(hex + "]", ColorClose);
    TagCounts();
    assert ColorOpen + hex + "]" == ColorOpen + (hex + "]");
    CountJoin(ColorOpen, hex + "]", ColorOpen);
    CountJoin(ColorOpen, hex + "]", ColorClose);
  }

  /** A string starting with `[` and a character that continues neither tag. */
  lemma AvoidsAfterBracket(body: string, pat: string)
    requires IsColorTag(pat) && body != [] && body[0] != 'c' && body[0] != '/' && '[' !in body
    ensures Avoids(['['] + body, pat)
  {
    AvoidsWithoutHead(body, pat);
    assert (['['] + body)[1] == body[0];
    AvoidsCons('[', body, pat);
  }

  /** The escapes hold neither tag, even partly. */
  lemma AnsiAvoidsTags(hex: string, pat: string)
    requires IsColorHex(hex) && IsColorTag(pat)
    ensures Avoids(AnsiOpen(hex), pat) && Avoids(AnsiReset, pat)
  {
    var rgb := hex[|hex| - 6..];
    assert forall i :: 0 <= i < 6 ==> rgb[i] == hex[|hex| - 6 + i];
    var r, g, b := HexByte(rgb[0], rgb[1]), HexByte(rgb[2], rgb[3]), HexByte(rgb[4], rgb[5]);
    var body := "38;2;" + Channels(r, g, b) + "m";
    TrueColorBody(r, g, b);
    AvoidsAfterBracket(body, pat);
    AvoidsConsOther(Esc, ['['] + body, pat);
    assert AnsiOpen(hex) == [Esc] + (['['] + body);
    AvoidsAfterBracket("0m", pat);
    assert ['['] + "0m" == "[0m";
    AvoidsConsOther(Esc, "[0m", pat);
    assert AnsiReset == [Esc] + "[0m";
  }

  lemma DecimalHasNoBracket(n: nat)
    ensures '[' !in Decimal(n)
  {
    var d := Decimal(n);
    assert forall i :: 0 <= i < |d| ==> d[i] != '[';
  }

  lemma TrueColorBody(r: nat, g: nat, b: nat)
    ensures var body := "38;2;" + Channels(r, g, b) + "m";
      body != [] && body[0] == '3' && '[' !in body && TrueColor(r, g, b) == [Esc] + (['['] + body)
  {
    var c := Channels(r, g, b);
    DecimalHasNoBracket(r);
    DecimalHasNoBracket(g);
    DecimalHasNoBracket(b);
    assert '[' !in c;
    var lead: string := "38;2;";
    assert '[' !in lead by {
      assert forall i :: 0 <= i < |lead| ==> lead[i] in "0123456789;";
    }
    assert "[38;2;" == ['['] + lead;
    Nest(Esc, lead, c);
  }

  /** Only regroups a concatenation: an escape as `ESC [` followed by its parameters and `m`. */
  lemma Nest(e: char, lead: string, c: string)
    ensures [e] + (['['] + lead) + c + "m" == [e] + (['['] + (lead + c + "m"))
  {
  }

  /** Tags counted in a span and its surroundings. */
  lemma SpanCount(a: string, hex: string, text: string, b: string, pat: string)
    requires IsColorHex(hex) && IsColorTag(pat)
    ensures Count(a + ColorOpen + hex + "]" + text + ColorClose + b, pat)
         == Count(a, pat) + 1 + Count(text, pat) + Count(b, pat)
  {
    var tag := ColorOpen + hex + "]";
    TagPairCount(hex, pat);
    var s1 := a + tag;
    var s2 := s1 + text;
    var s3 := s2 + ColorClose;
    assert s1[|s1| - 1] == ']';
    assert s3[|s3| - 1] == ']';
    assert ColorClose[0] == '[';
    assert tag[0] == '[';
    CountJoin(a, tag, pat);
    CountJoin(s1, text, pat);
    CountJoin(s2, ColorClose, pat);
    CountJoin(s3, b, pat);
    assert a + ColorOpen + hex + "]" == s1;
  }

  /** A span's two tags hold one occurrence of either tag between them. */
  lemma TagPairCount(hex: string, pat: string)
    requires IsColorHex(hex) && IsColorTag(pat)
    ensures Count(ColorOpen + hex + "]", pat) + Count(ColorClose, pat) == 1
  {
    OpenTagCounts(hex);
    TagCounts();
  }

  /** Tags counted in a rewritten span and its surroundings. */
  lemma RewrittenCount(a: string, hex: string, text: string, b: string, pat: string)
    requires IsColorHex(hex) && IsColorTag(pat)
    ensures Count(a + AnsiOpen(hex) + text + AnsiReset + b, pat)
         == Count(a, pat) + Count(text, pat) + Count(b, pat)
  {
    var open := AnsiOpen(hex);
    AnsiAvoidsTags(hex, pat);
    AvoidsCount(open, pat);
    AvoidsCount(AnsiReset, pat);
    var rgb := hex[|hex| - 6..];
    assert forall i :: 0 <= i < 6 ==> rgb[i] == hex[|hex| - 6 + i];
    TrueColorBody(HexByte(rgb[0], rgb[1]), HexByte(rgb[2], rgb[3]), HexByte(rgb[4], rgb[5]));
    var s1 := a + open;
    var s2 := s1 + text;
    var s3 := s2 + AnsiReset;
    assert open[0] == Esc && open[|open| - 1] == 'm';
    assert s1[|s1| - 1] == 'm';
    assert s3[|s3| - 1] == 'm';
    assert AnsiReset[0] == Esc;
    CountJoin(a, open, pat);
    CountJoin(s1, text, pat);
    CountJoin(s2, AnsiReset, pat);
    CountJoin(s3, b, pat);
  }

  /**
   * Rewriting one span removes exactly one `[color=` and one `[/color]`, and creates none,
   * whatever surrounds the span.
   */
  lemma RewriteCounts(a: string, hex: string, text: string, b: string, pat: string)
    requires IsColorHex(hex) && IsColorTag(pat)
    ensures Count(a + ColorOpen + hex + "]" + text + ColorClose + b, pat)
         == Count(a + AnsiOpen(hex) + text + AnsiReset + b, pat) + 1
  {
    SpanCount(a, hex, text, b, pat);
    RewrittenCount(a, hex, text, b, pat);
  }

  // ---------------------------------------------------------------------------------
  // The rewrite loop
  // ---------------------------------------------------------------------------------

  /** A match cuts its string into what precedes the span, the span, and what follows. */
  lemma MatchSplits(s: string, m: ColorMatch)
    requires m.start <= |s| && MatchAt(s, m.start) == Some(m)
    ensures s == s[..m.start] + ColorOpen + m.hex + "]" + m.text + ColorClose + s[m.end..]
  {
    MatchAtShape(s, m.start);
    Splice(s, m.start, m.end, ColorOpen, m.hex, "]", m.text, ColorClose);
  }

  /** A string is what precedes a slice, the slice's pieces, and what follows it. */
  lemma Splice(s: string, i: nat, j: nat, x1: string, x2: string, x3: string, x4: string, x5: string)
    requires i <= j <= |s| && s[i..j] == x1 + x2 + x3 + x4 + x5
    ensures s == s[..i] + x1 + x2 + x3 + x4 + x5 + s[j..]
  {
    assert s == s[..i] + s[i..j] + s[j..];
  }

  /**
   * One iteration of the loop: rewrite the leftmost innermost span, if there is one.
   * Each rewrite removes exactly one `[color=` and one `[/color]`.
   */
  function ColorStep(s: string): (r: Option<string>)
    ensures r.None? <==> Search(s).None?
    ensures r.Some? ==> Count(r.value, ColorOpen) + 1 == Count(s, ColorOpen)
    ensures r.Some? ==> Count(r.value, ColorClose) + 1 == Count(s, ColorClose)
  {
    match Search(s)
    case None => None
    case Some(m) =>
      var a, b := s[..m.start], s[m.end..];
      MatchSplits(s, m);
      Regroup(a, AnsiOpen(m.hex), m.text, AnsiReset, b);
      RewriteCounts(a, m.hex, m.text, b, ColorOpen);
      RewriteCounts(a, m.hex, m.text, b, ColorClose);
      Some(ApplyMatch(s, m))
  }

  /** `_render_all_colors_iteratively`, as a function: rewrite until no span is left. */
  function RenderColors(s: string): (r: string)
    ensures Search(r).None?
    ensures Count(r, ColorOpen) <= Count(s, ColorOpen)
    decreases Count(s, ColorOpen)
  {
    match ColorStep(s)
    case None => s
    case Some(t) => RenderColors(t)
  }

  /**
   * `_render_all_colors_iteratively`: the `while True` loop that searches for the leftmost
   * innermost span and splices its ANSI rendering into the text.
   */
  method RenderAllColorsIteratively(textSegment: string) returns (currentText: string)
    ensures currentText == RenderColors(textSegment)
    ensures Search(currentText).None?
  {
    currentText := textSegment;
    while true
      invariant RenderColors(currentText) == RenderColors(textSegment)
      decreases Count(currentText, ColorOpen)
    {
      var match_ := Search(currentText);
      if match_.None? {
        break;
      }
      var m := match_.value;
      var hexCode := m.hex;
      var innerText := m.text;
      var rgbHex := hexCode[|hexCode| - 6..];
      assert forall i :: 0 <= i < 6 ==> rgbHex[i] == hexCode[|hexCode| - 6 + i];
      var r := HexByte(rgbHex[0], rgbHex[1]);
      var g := HexByte(rgbHex[2], rgbHex[3]);
      var b := HexByte(rgbHex[4], rgbHex[5]);
      var ansiColoredText := TrueColor(r, g, b) + innerText + AnsiReset;
      var start, end := m.start, m.end;
      assert TrueColor(r, g, b) == AnsiOpen(hexCode);
      assert ColorStep(currentText) == Some(ApplyMatch(currentText, m));
      currentText := currentText[..start] + ansiColoredText + currentText[end..];
    }
  }

  /** `pretty_print_markup` without its `print`: strip font tags, then render colours. */
  function PrettyMarkup(markup: string): string {
    RenderColors(DeleteAll(StripFontTags(markup), FontClose))
  }

  /** `pretty_print_markup`, returning the line it would print. */
  method PrettyPrintMarkup(markup: string) returns (renderedMarkup: string)
    ensures renderedMarkup == PrettyMarkup(markup)
    ensures Search(renderedMarkup).None?
  {
    var processedMarkup := StripFontTags(markup);
    processedMarkup := DeleteAll(processedMarkup, FontClose);
    renderedMarkup := RenderAllColorsIteratively(processedMarkup);
  }
}
