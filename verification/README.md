# factorio-progress, modelled in Dafny

This project models the two algorithms of `factorio-progress`.

The **condition generator** (`generate_pbar_conditions` in `progress.py`) turns a bar
configuration (`PBarConfig`) into an ordered list of display-panel conditions. Each
condition has a signal, a threshold, a comparator (`<=`, `=` or `>=`) and a text. The text
is a bar of Unicode eighth-block glyphs (`▏` … `█`), optionally tinted with
`[color=#rrggbb]…[/color]` markup, wrapped in a `[font=technology-slot-level-font]` tag and
followed by a percentage label.

The **markup renderer** (`pretty_print_markup`, `_render_all_colors_iteratively` and the
regular expressions `FONT_OPEN_RE` and `INNERMOST_COLOR_RE` in `tests/test_progress.py`)
turns such text into terminal text. It deletes font tags, then rewrites the leftmost
innermost colour span into a 24-bit ANSI escape, again and again until none is left. The
test helper `sample_evenly_interpolated` is modelled too.

Modules:

- `Wrappers`: `Option` and `Result`.
- `Arith`: small lemmas about multiplication.
- `Occurrences`: counting a pattern in a string, and strings that cannot complete a pattern
  at their end.
- `Numerals`: hexadecimal digits and decimal numerals.
- `PyStr`: the Python string operations used: `c * n`, `str.strip()` and `format(s, ">w")`.
- `Progress`: the configuration, the generator as a method with its loop, and the
  functions that specify it.
- `ProgressProperties`: what the generated list looks like, and which signal values it
  covers.
- `Markup`: the two regular expressions as scanners, the rewrite loop as a method, and the
  functions that specify it.
- `MarkupProperties`: what the renderer does to well-nested markup, to malformed markup and
  to plain text.
- `Sampling`: `sample_evenly_interpolated`.
- `Preview`: the two halves together, i.e. what the renderer prints for a generated
  condition.

The colour map is a parameter `(num, den) -> string` standing for
`rgb2hex(cmap(num / den))`. The `%.1f` formatting of the percentage is a parameter
`(num, den) -> string` standing for `format(num / den * 100, ".1f")`. The padding to width 5,
the `%`, the `strip()` and everything built from them are modelled.

Two facts about the generated list follow from the code and are easy to get wrong:

- The code stores `step + 1` as the threshold (`progress.py` lines 82 and 98), so the last
  threshold is `8 * length`. With `length = 10` there are 81 conditions with thresholds
  `0 … 80` (`UnitStep`, `ThresholdLayout`).
- With `step_size > 1` some signal values match no condition: a value strictly between two
  consecutive thresholds satisfies neither their `=` nor the `<=` and `>=` at the ends.
  Every value is matched exactly when `step_size == 1` (`CoverageIffUnitStep`). No value is
  ever matched twice (`AtMostOneHolds`).

## Model

| member | source | states |
|---|---|---|
| Progress.DefaultConfig | progress.py:19-26 | The default configuration keeps the given position and is valid, with signal `parameter-0`, an empty prefix, no colour map, `length == 10` (a bar of 80 eighths) and `step_size == 1` |
| Progress.Range | progress.py:59 | `range(start, stop, step)` is empty exactly when `start >= stop`, lies in `[start, stop)`, starts at `start`, and its last value plus one step reaches `stop` |
| Progress.LoopValues | progress.py:56-61 | The loop values are exactly `Steps(config)`: the range from -1 by `step_size`, completed by `8 * length - 1` when the range misses it |
| Progress.Steps | progress.py:59-61 | The loop values as a function: `LoopValues` computes them, and `StepsShape` and `StepsIncreasing` state their shape |
| Progress.FilledGlyphs | progress.py:64-74 | The filled part of the bar for a loop value: no glyph for -1, else `step // 8` full blocks and glyph `step % 8`; `BarLayout` states that it fills `step + 1` eighths |
| Progress.RemainingBlocks | progress.py:65-73 | The full blocks after the filled part; `BarLayout` states that it is never negative and completes `length` cells |
| Progress.Tinted | progress.py:76-91 | The colour wrapping of a segment; `TintedWraps` states when it wraps and how |
| Progress.Label | progress.py:83-85 | The stripped percentage field; `LabelFillers` and `NumeralLabel` state its contents |
| Progress.LabelPadding | progress.py:84 | The count of stripped padding characters; `LabelFillers` states that it equals the leading spaces of the field |
| Progress.ConditionText | progress.py:64-94 | The text of the condition for one loop value; `TextOfParts` assembles it, and `Preview.PreviewCondition` states what it prints as |
| Progress.Conditions | progress.py:63-106 | The list the generator returns; `GeneratePbarConditions` computes it, and the `ProgressProperties` lemmas state its layout |
| Progress.BuildCondition | progress.py:64-101 | One loop pass fills the template with threshold `step + 1` and the text of the bar for `step`, with comparator `=` |
| Progress.GeneratePbarConditions | progress.py:40-107 | The loop and the two overwrites of the comparators return exactly `Conditions(config, format)` |
| Progress.TextOfParts | progress.py:93-94 | Unfolding step of `ConditionText`, used by `BuildCondition`: the text is the prefix, the font tag, the tinted bar and tail, `[/font]`, two spaces and the label |
| Progress.EndsOverwritten | progress.py:104-106 | After the two in-place overwrites the first condition has `<=`, the last has `>=`, and every other condition is unchanged |
| Progress.Finished | progress.py:63-106 | The list built in the loop, with its ends overwritten, is the specified list |
| ProgressProperties.RangeAt | progress.py:59 | The `i`-th value of the range is `start + i * step` |
| ProgressProperties.StepsShape | progress.py:59-61 | There are at least two loop values; all but the last are `-1 + i * step_size`; the last is `8 * length - 1`; the count is the least that reaches it |
| ProgressProperties.StepsIncreasing | progress.py:59-61 | The loop values are strictly increasing and lie in `[-1, 8 * length)` |
| ProgressProperties.ConditionAt | progress.py:63-106 | Unfolding step of `Conditions`, used by `ComparatorLayout` and `ThresholdAt`: the list has one condition per loop value, and the `i`-th is built from the `i`-th loop value with the comparator of its place |
| ProgressProperties.ConditionFields | progress.py:41-49 | Unfolding step of `ConditionFor`, used by `ComparatorLayout` and `ThresholdAt`: each condition's first signal and icon are the configured signal, and its constant is the loop value plus one |
| ProgressProperties.ComparatorLayout | progress.py:104-106 | The first comparator is `<=`, the last is `>=`, and all others are `=`; every condition uses the configured signal |
| ProgressProperties.ThresholdAt | progress.py:82-98 | Unfolding step combining `ConditionAt` and `ConditionFields`, used by `ThresholdLayout`: the threshold of the `i`-th condition is the `i`-th loop value plus one |
| ProgressProperties.ThresholdLayout | progress.py:57-98 | Thresholds run `0, k, 2k, …` and end with `8 * length`; they are strictly increasing |
| ProgressProperties.ThresholdsExactly | progress.py:57-98 | A value is a threshold exactly when it is a multiple of `step_size` in `[0, 8 * length]`, or `8 * length` itself |
| ProgressProperties.UnitStep | progress.py:59-61 | With `step_size == 1` there are `8 * length + 1` conditions with thresholds `0, 1, 2, …` |
| ProgressProperties.DefaultConditions | progress.py:19-26 | The default configuration (`length == 10`, `step_size == 1`) yields 81 conditions with thresholds `0, 1, …, 80` |
| ProgressProperties.AtMostOneHolds | progress.py:97-106 | No signal value satisfies two different conditions |
| ProgressProperties.CoverageIffUnitStep | progress.py:97-106 | Every signal value satisfies some condition exactly when `step_size == 1` |
| ProgressProperties.SubstepEighths | progress.py:51-52 | The `j`-th glyph of the block set fills `j + 1` eighths of a cell |
| ProgressProperties.EighthsFull | progress.py:72 | `n` full blocks fill `8 * n` eighths |
| ProgressProperties.BarLayout | progress.py:64-87 | For every loop value the bar spans exactly `length` cells of block glyphs. Its filled part fills `step + 1` eighths: full blocks and then one partial glyph. The zero state is `length` full blocks |
| ProgressProperties.LabelFillers | progress.py:83-85 | The label is the padded percentage with its leading spaces cut off. The number of `0` fillers is that number of spaces, and fillers plus label make up the field width |
| ProgressProperties.NumeralLabel | progress.py:83-85 | For a percentage without whitespace the label is the percentage followed by `%`, with `5 - len` fillers when it is shorter than 5 |
| ProgressProperties.TintedWraps | progress.py:76-91 | A segment is wrapped in a colour tag exactly when there is a colour map and the segment is non-empty, and the wrap is `[color=C]segment[/color]` |
| PyStr.StripShape | progress.py:84-85 | `strip()` returns the slice of the input between a whitespace prefix and a whitespace suffix, and that slice neither starts nor ends with whitespace |
| PyStr.Repeat | progress.py:72 | `c * n` has `max(n, 0)` characters; `RepeatChars` states that each is `c` |
| PyStr.Strip | progress.py:85 | `strip()` never lengthens the text; `StripShape` states which slice it returns |
| PyStr.PadLeft | progress.py:83 | Right-aligning in a field of width `w` yields `max(len, w)` characters |
| Sampling.RoundNearest | tests/test_progress.py:54-56 | `round` of `i * (n - 1) / (k - 1)` is within one half of the exact quotient, and it is even on a tie |
| Sampling.RoundUnique | tests/test_progress.py:54-56 | Only one integer is nearest with ties to even, so the rounding is determined |
| Sampling.RoundHalfEven | tests/test_progress.py:56 | `round` of a quotient; `RoundNearest` and `RoundUnique` state that it is the unique nearest integer, ties to even |
| Sampling.SampleIndex | tests/test_progress.py:54-61 | Every computed index is a valid index into the data |
| Sampling.SampleIndexBounds | tests/test_progress.py:57-60 | Rounding `i * (n - 1) / (k - 1)` for `i` in `[0, k)` stays in `[0, n - 1]` |
| Sampling.SampleIndexEnds | tests/test_progress.py:16-18 | The first sample is index 0 and the last is index `n - 1` |
| Sampling.SampleIndexIncreasing | tests/test_progress.py:47-56 | Sample indices are strictly increasing when fewer samples than items are asked for, so no item is picked twice |
| Sampling.SampleEvenlyInterpolated | tests/test_progress.py:13-63 | A negative count fails and nothing else fails. Zero samples or empty data give `[]`; one sample gives the middle item; at least as many samples as items give all items. Otherwise exactly `k` items, from the first to the last, each at its rounded index |
| Markup.FontTagLength | tests/test_progress.py:70 | A `[font=…]` tag at the head is longer than `[font=]` and fits in the input; `FontTagShape` states its exact shape |
| MarkupProperties.FontTagShape | tests/test_progress.py:70 | A recognised font tag is `[font=`, a non-empty name free of `]`, and the first `]` after it |
| MarkupProperties.EmptyFontNameSurvives | tests/test_progress.py:70 | `[font=]` has an empty name, so it is no tag, and font stripping keeps it |
| MarkupProperties.StripKeepsUnclosed | tests/test_progress.py:70 | Text without `]` holds no font tag, so an unterminated `[font=x` survives font stripping |
| Markup.StripFontTags | tests/test_progress.py:137 | Removing font opening tags never lengthens the text |
| Markup.DeleteAll | tests/test_progress.py:138 | Deleting a pattern never lengthens the text |
| Markup.OpenTagEnd | tests/test_progress.py:82 | A colour opening tag `[color=#` with 6 to 8 hex digits and `]` is 15 to 17 characters long |
| Markup.OpenTagHex | tests/test_progress.py:82 | The captured `hex` group of an opening tag is `#` followed by 6 to 8 hex digits |
| Markup.ContentEnd | tests/test_progress.py:83-84 | The span content ends at the first `[/color]` and contains no `[color=` and no `[/color]` |
| Markup.MatchAt | tests/test_progress.py:81-86 | A match at a position starts there, ends inside the text, and its `hex` group is a valid colour |
| Markup.MatchAtShape | tests/test_progress.py:81-86 | The matched text is the opening tag, the content and `[/color]` |
| Markup.MatchTextHasNoTags | tests/test_progress.py:83 | The content of a match holds no colour tag |
| Markup.SearchFrom | tests/test_progress.py:97 | The search returns the leftmost match from a position, or reports that no later position matches |
| Markup.Search | tests/test_progress.py:97 | `search` returns the leftmost match, or none exists |
| Numerals.HexByte | tests/test_progress.py:108-110 | `int(xy, 16)` is below 256, with `x` the sixteens digit and `y` the units digit |
| Numerals.Decimal | tests/test_progress.py:113 | `str(n)` is a non-empty run of decimal digits, starting with `0` only for zero |
| Numerals.DecimalRoundTrip | tests/test_progress.py:113 | Reading back the digits `str(n)` writes gives `n` |
| Markup.AnsiOpen | tests/test_progress.py:107-113 | The escape for a `hex` group; `AnsiOpenChannels` and `AlphaIgnored` state which digits make which channel |
| Markup.ApplyMatch | tests/test_progress.py:119-120 | The text with one match replaced by escape, text and reset; `MatchSplits` and `RenderRewritesSpan` state what it keeps |
| MarkupProperties.AnsiOpenChannels | tests/test_progress.py:107-113 | Unfolding step of `AnsiOpen`; `HexByte` and `DecimalRoundTrip` state what each channel's digits mean: the escape for a colour is `ESC[38;2;R;G;Bm` with the channels read from the last six hex digits |
| Markup.RewriteCounts | tests/test_progress.py:113-120 | Replacing a span by its ANSI form removes exactly one opening tag and one closing tag |
| Markup.ColorStep | tests/test_progress.py:97-120 | One rewrite happens exactly when a match exists, and it removes one opening and one closing colour tag |
| Markup.RenderColors | tests/test_progress.py:89-122 | When rewriting ends, no innermost colour span is left, and there are no more opening tags than before |
| Markup.RenderAllColorsIteratively | tests/test_progress.py:89-122 | The loop computes `RenderColors` of its input, and leaves no match behind |
| Markup.PrettyPrintMarkup | tests/test_progress.py:125-144 | The printed text is the input with font tags removed and colours rendered, and it holds no colour span |
| Markup.PrettyMarkup | tests/test_progress.py:136-141 | Font tags stripped, `[/font]` deleted, colours rendered; `PrettyMarkupPlain` and `Preview.PreviewCondition` state its results |
| MarkupProperties.OpenTagFound | tests/test_progress.py:82 | A well-formed opening tag is recognised with its full length |
| MarkupProperties.ContentEndAt | tests/test_progress.py:83-84 | Content free of colour tags up to a `[/color]` ends at that `[/color]` |
| MarkupProperties.ContentEndNone | tests/test_progress.py:83 | When no content end is found before a `[/color]`, a `[color=` comes first |
| MarkupProperties.NoMatchBefore | tests/test_progress.py:81-86 | No match can start inside text that completes no `[/color]` when an opening tag follows it |
| MarkupProperties.MatchAtSpan | tests/test_progress.py:81-86 | An opening tag, text holding no `[color=` and no `[/color]`, and `[/color]` at a position are matched as exactly that span, also when the text ends with part of a tag (`[color=#112233]a[[/color]` gives the text `a[`) |
| MarkupProperties.SearchFindsSpan | tests/test_progress.py:97 | The search finds the first innermost span. The text before it may contain no `[/color]` nor end with part of one; the span's text may contain no colour tag nor end with part of one |
| MarkupProperties.RenderRewritesSpan | tests/test_progress.py:97-120 | Under the same conditions on the text before the span and inside it, that span is the one rewritten next, into escape, content and reset |
| MarkupProperties.RenderWithoutOpenTag | tests/test_progress.py:95-99 | Text without `[color=` is returned unchanged |
| MarkupProperties.RenderWithoutCloseTag | tests/test_progress.py:95-99 | Text without `[/color]` is returned unchanged, as with unclosed tags |
| MarkupProperties.RenderIdempotent | tests/test_progress.py:89-122 | Rendering rendered text changes nothing |
| MarkupProperties.RenderedIsPlain | tests/test_progress.py:129-132 | The rendering of well-nested markup contains no colour tag |
| MarkupProperties.RenderSpansInContext | tests/test_progress.py:89-93 | After a context that contains no `[/color]` and does not end with part of one, well-nested markup whose text pieces are `Plain` renders as its rendering does |
| MarkupProperties.RenderSpans | tests/test_progress.py:129-132 | Well-nested colour markup, followed by text without `[color=`, renders each span as escape, rendered body and reset, innermost first |
| MarkupProperties.StripKeepsPlainPrefix | tests/test_progress.py:137 | Text that completes no `[font=` passes through font stripping unchanged, ahead of the rest |
| MarkupProperties.StripRemovesTag | tests/test_progress.py:137 | A `[font=name]` tag with a non-empty name without `]` is removed |
| MarkupProperties.StripUnchanged | tests/test_progress.py:137 | Font stripping changes the text exactly when a font tag occurs in it |
| MarkupProperties.DeleteUnchanged | tests/test_progress.py:138 | Deleting `[/font]` changes the text exactly when it occurs in it |
| MarkupProperties.DeleteIsOnePass | tests/test_progress.py:138 | The replacement is one left-to-right pass: `[/fo[/font]nt]` becomes `[/font]` |
| MarkupProperties.PrettyMarkupPlain | tests/test_progress.py:237-240 | Text without `[` (the empty input among them) is printed unchanged |
| MarkupProperties.PrettyMarkupUntagged | tests/test_progress.py:136-141 | Text holding no `[font=`, no `[/font]`, and no `[color=` or no `[/color]`, is printed unchanged, whatever other brackets it holds |
| MarkupProperties.PrettyMarkupBrackets | tests/test_progress.py:136-141 | `a [b] c`, bracketed but tag-free, is printed as it is |
| MarkupProperties.AlphaIgnored | tests/test_progress.py:106-107 | The escape for an 8-digit colour is the escape for its last six digits: alpha is ignored |
| Preview.TintSpanShape | progress.py:76-91 | A segment the generator tints is a well-nested colour span. Its markup is the generated text, and it renders as escape, segment and reset |
| Preview.TintedAvoids | progress.py:76-91 | A tinted bar segment contains no `[font=` and no `[/font]` |
| Preview.StripStage | tests/test_progress.py:137 | Font stripping removes the generator's font tag and keeps the text around it |
| Preview.DeleteStage | tests/test_progress.py:138 | Deleting `[/font]` removes the generator's closing font tag and keeps the text around it |
| Preview.RenderStage | tests/test_progress.py:89-122 | The two tinted parts of the bar render as two shaded parts, with the prefix (free of colour tags and of a trailing part of one) and the caption kept |
| Preview.FontsGo | tests/test_progress.py:137-138 | Both font steps together leave prefix (free of font tags and of a trailing part of one), bar and caption |
| Preview.IconPrefixTagFree | progress.py:23 | A rich-text icon prefix such as `[item=iron-plate] ` holds no font or colour tag, so `PreviewCondition` applies to it |
| Preview.PreviewCondition | tests/test_progress.py:244-249 | For a `TagFree` prefix (rich-text icons included, see `IconPrefixTagFree`) the printed text of any generated condition is the prefix, the shaded filled glyphs, the shaded tail of full blocks and `0` fillers, two spaces and the label |

## Left out

- `json_to_blueprint`, `linspace`, `generate_pbar_entity` and the rest of `progress.py`
  after line 107 build and encode the blueprint document (JSON, zlib, base64, clipboard).
  They are not part of this model.
- The `print` calls (`progress.py` line 55, `tests/test_progress.py` line 144) are output
  only. `PrettyPrintMarkup` returns the text that would be printed.
- The colour map and `rgb2hex` are floating point and call into matplotlib. They are a
  parameter of the model. `PreviewCondition` asks that it yield `#` and six to eight hex
  digits, which `rgb2hex` always does.
- The `%.1f` formatting of the percentage is floating point. It is a parameter of the
  model; only what follows it (padding, `%`, `strip()`) is modelled.
- The regular expression engine is not modelled. `FONT_OPEN_RE` and `INNERMOST_COLOR_RE`
  are modelled as the scanners `FontTagLength` and `MatchAt`, which accept the same
  strings; `re.DOTALL` needs no model because the scanners treat every character alike.
- The `isinstance` checks of `sample_evenly_interpolated` raise `TypeError` on values that
  the Dafny types exclude.
- Sampling.SampleIndex: `round(i * (n - 1) / (k - 1))` is modelled with exact rational
  round-half-even, not binary floating point. For huge lists the float quotient can round
  differently; that is not modelled.
- Progress.GeneratePbarConditions: requires `length >= 1` and `step_size >= 1`. Outside
  that the Python code raises or returns degenerate output, which is not modelled: a
  `step_size` of 0 makes `range` raise `ValueError`; an empty `steps` (for example
  `length == 0` with a negative `step_size`, or a positive `step_size` with a negative
  `length`) makes `steps[-1]` raise `IndexError`; `length == 0` with a positive `step_size`
  divides by zero; and a negative `length` with a negative `step_size` (say both `-1`)
  returns conditions with the thresholds `0, -1, -2, …`.
- The `deepcopy` of the template dictionary and the in-place updates of the nested
  dictionaries are modelled on values. Each condition is a fresh value, so the aliasing
  that `deepcopy` prevents cannot arise.
- The individual parametrised test strings of `TestPrettyPrintMarkup` are not restated as
  concrete lemmas. The general lemmas cover their shapes: nesting (`RenderSpans`), no tags
  and empty input (`PrettyMarkupPlain`, `PrettyMarkupUntagged`), unclosed tags (`RenderWithoutCloseTag`), alpha
  (`AlphaIgnored`) and font removal (`StripUnchanged`, `DeleteUnchanged`).
- MarkupProperties.RenderSpans: proved for well-nested markup followed by text without
  `[color=`, whose text pieces are `Plain`. `Plain` excludes more than the tags themselves:
  a piece may not end with a proper prefix of `[color=` or `[/color]` (a trailing `[` or
  `[/co`). The Python code renders such pieces normally, for example
  `[color=#112233]a[[/color]` is one span with text `a[`. For those inputs `MatchAtSpan`
  states the match, and otherwise only the general facts of `RenderColors` apply. For malformed markup (stray or unclosed tags) only
  those general facts and the two pass-through lemmas are stated.
- MarkupProperties.SearchFindsSpan, MarkupProperties.RenderRewritesSpan,
  MarkupProperties.RenderSpansInContext: carry the same
  restriction. The text before the span may not end with a proper prefix of `[/color]`, and
  the span's text may not end with a proper prefix of either tag. For
  `RenderSpansInContext` the context may not end with a proper prefix of `[/color]`, so
  `[/co` followed by `[color=#112233]y[/color]` is not covered, and every text piece must be
  `Plain`.
- Preview.PreviewCondition, Preview.FontsGo, Preview.RenderStage: the prefix must be
  `TagFree`: it contains no `[font=`, `[/font]`, `[color=` or `[/color]` and does not end with
  a proper prefix of one. Rich-text icons such as `[item=iron-plate] ` qualify
  (`IconPrefixTagFree`). A prefix that carries its own font or colour markup, or ends with
  `[` or `[co`, is rendered by the Python code too but is not covered. The formatted
  percentage must contain no `[`, which a number formatted with `.1f` never does.
