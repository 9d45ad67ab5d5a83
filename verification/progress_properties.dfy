/**
 * What `generate_pbar_conditions` promises about the list it returns: the loop values
 * and the thresholds derived from them, the comparator of each place, the glyphs of
 * each bar, and the alignment fillers that keep every label in the same column.
 */
module ProgressProperties {
  import opened Wrappers
  import opened Arith
  import opened PyStr
  import opened Progress

  // ---------------------------------------------------------------------------------
  // Loop values and thresholds
  // ---------------------------------------------------------------------------------

  /** The `i`-th value of `range(start, stop, step)` is `start + i * step`. */
  lemma {:induction false} RangeAt(start: int, stop: int, step: int, i: int)
    requires step >= 1 && 0 <= i < |Range(start, stop, step)|
    ensures Range(start, stop, step)[i] == start + i * step
    decreases stop - start
  {
    if i > 0 {
      RangeAt(start + step, stop, step, i - 1);
      assert start + step + (i - 1) * step == start + i * step;
    }
  }

  /**
   * The loop values: at least two; all but the last are `-1, -1 + k, -1 + 2k, ...`; the last
   * is `8 * length - 1`; and the spacing `k` does not fit once more below the last.
   */
  lemma StepsShape(config: PBarConfig)
    requires ValidConfig(config)
    ensures var s := Steps(config); var n := |s|; var m := config.length * Divs; var k := config.stepSize;
      n >= 2 && s[n - 1] == m - 1 && (n - 2) * k < m <= (n - 1) * k
      && forall i :: 0 <= i < n - 1 ==> s[i] == -1 + i * k
  {
    var m := config.length * Divs;
    var k := config.stepSize;
    var base := Range(-1, m, k);
    var nb := |base|;
    forall i | 0 <= i < nb ensures base[i] == -1 + i * k {
      RangeAt(-1, m, k, i);
    }
    if base[nb - 1] < m - 1 {
      assert Steps(config) == base + [m - 1];
    } else {
      assert Steps(config) == base;
    }
  }

  /** The loop values rise strictly and stay within `-1 .. 8 * length - 1`. */
  lemma StepsIncreasing(config: PBarConfig)
    requires ValidConfig(config)
    ensures var s := Steps(config);
      (forall i :: 0 <= i < |s| ==> -1 <= s[i] < config.length * Divs)
      && forall i, j :: 0 <= i < j < |s| ==> s[i] < s[j]
  {
    var s := Steps(config);
    var n := |s|;
    var k := config.stepSize;
    StepsShape(config);
    forall i | 0 <= i < n - 1 ensures 0 <= i * k <= (n - 2) * k {
      if i < n - 2 {
        MulStrict(i, n - 2, k);
      }
    }
    forall i, j | 0 <= i < j < n ensures s[i] < s[j] {
      if j < n - 1 {
        MulStrict(i, j, k);
      }
    }
  }

  /** The `i`-th condition of the list: the one built for the `i`-th loop value, at its place. */
  lemma ConditionAt(config: PBarConfig, format: PercentFormat, i: int)
    requires ValidConfig(config) && 0 <= i < |Conditions(config, format)|
    ensures |Conditions(config, format)| == |Steps(config)|
    ensures Conditions(config, format)[i]
         == ConditionFor(config, format, Steps(config)[i], ComparatorAt(i, |Steps(config)|))
  {
  }

  /** The circuit condition and icon of a condition built for loop value `step`. */
  lemma ConditionFields(config: PBarConfig, format: PercentFormat, step: int, comparator: Comparator)
    ensures ConditionFor(config, format, step, comparator).condition
         == CircuitCondition(config.signalName, step + 1, comparator)
    ensures ConditionFor(config, format, step, comparator).icon == config.signalName
  {
  }

  /**
   * At least two conditions; the first compares with `<=`, the last with `>=`, every
   * other one with `=`; every one reads and shows the configured signal.
   */
  lemma ComparatorLayout(config: PBarConfig, format: PercentFormat)
    requires ValidConfig(config)
    ensures var c := Conditions(config, format); var n := |c|;
      n >= 2
      && c[0].condition.comparator == LessOrEqual
      && c[n - 1].condition.comparator == GreaterOrEqual
      && (forall i :: 0 < i < n - 1 ==> c[i].condition.comparator == Equal)
      && forall i :: 0 <= i < n ==> c[i].condition.firstSignal == config.signalName && c[i].icon == config.signalName
  {
    var c := Conditions(config, format);
    var s := Steps(config);
    StepsShape(config);
    forall i | 0 <= i < |c|
      ensures c[i].condition == CircuitCondition(config.signalName, s[i] + 1, ComparatorAt(i, |s|))
      ensures c[i].icon == config.signalName
    {
      ConditionAt(config, format, i);
      ConditionFields(config, format, s[i], ComparatorAt(i, |s|));
    }
  }

  /** The threshold stored in the `i`-th condition: the loop value plus one. */
  lemma ThresholdAt(config: PBarConfig, format: PercentFormat, i: int)
    requires ValidConfig(config) && 0 <= i < |Conditions(config, format)|
    ensures Conditions(config, format)[i].condition.constant == Steps(config)[i] + 1
  {
    ConditionAt(config, format, i);
    ConditionFields(config, format, Steps(config)[i], ComparatorAt(i, |Steps(config)|));
  }

  /**
   * The thresholds rise strictly from 0 to `8 * length`; all but the last are the
   * multiples `0, k, 2k, ...` of the spacing.
   */
  lemma ThresholdLayout(config: PBarConfig, format: PercentFormat)
    requires ValidConfig(config)
    ensures var c := Conditions(config, format); var n := |c|;
      c[0].condition.constant == 0
      && c[n - 1].condition.constant == config.length * Divs
      && (forall i :: 0 <= i < n - 1 ==> c[i].condition.constant == i * config.stepSize)
      && (n - 2) * config.stepSize < config.length * Divs <= (n - 1) * config.stepSize
      && forall i, j :: 0 <= i < j < n ==> c[i].condition.constant < c[j].condition.constant
  {
    var c := Conditions(config, format);
    StepsShape(config);
    StepsIncreasing(config);
    forall i | 0 <= i < |c| ensures c[i].condition.constant == Steps(config)[i] + 1 {
      ThresholdAt(config, format, i);
    }
  }

  /** The thresholds are exactly the multiples of the spacing in `0 .. 8 * length`, and `8 * length`. */
  lemma ThresholdsExactly(config: PBarConfig, format: PercentFormat, t: int)
    requires ValidConfig(config)
    ensures (exists i :: 0 <= i < |Conditions(config, format)| && Conditions(config, format)[i].condition.constant == t)
        <==> (0 <= t <= config.length * Divs && t % config.stepSize == 0) || t == config.length * Divs
  {
    ThresholdLayout(config, format);
    MultiplesThenLast(Conditions(config, format), config.length * Divs, config.stepSize, t);
  }

  /** The threshold set of a list laid out as multiples of `k` below `m`, then `m`. */
  lemma MultiplesThenLast(c: seq<DisplayCondition>, m: int, k: int, t: int)
    requires k >= 1 && |c| >= 2 && c[|c| - 1].condition.constant == m
    requires forall i :: 0 <= i < |c| - 1 ==> c[i].condition.constant == i * k
    requires (|c| - 2) * k < m <= (|c| - 1) * k
    ensures (exists i :: 0 <= i < |c| && c[i].condition.constant == t)
        <==> (0 <= t <= m && t % k == 0) || t == m
  {
    var n := |c|;
    if (0 <= t <= m && t % k == 0) || t == m {
      if t == m {
        assert c[n - 1].condition.constant == t;
      } else {
        var i := t / k;
        MultipleQuotient(t, k);
        MulCancel(i, n - 1, k);
        assert c[i].condition.constant == t;
      }
    }
    if exists i :: 0 <= i < n && c[i].condition.constant == t {
      var i :| 0 <= i < n && c[i].condition.constant == t;
      if i < n - 1 {
        MulMono(i, n - 2, k);
        MultipleRemainder(i, k);
      }
    }
  }

  /** With a spacing of one there are `8 * length + 1` conditions with thresholds `0, 1, 2, ...`. */
  lemma UnitStep(config: PBarConfig, format: PercentFormat)
    requires ValidConfig(config) && config.stepSize == 1
    ensures var c := Conditions(config, format);
      |c| == config.length * Divs + 1
      && forall i :: 0 <= i < |c| ==> c[i].condition.constant == i
  {
    ThresholdLayout(config, format);
    UnitLayout(Conditions(config, format), config.length * Divs);
  }

  /** The default bar of ten blocks has 81 conditions, with thresholds `0, 1, ..., 80`. */
  lemma DefaultConditions(position: (int, int), format: PercentFormat)
    ensures var c := Conditions(DefaultConfig(position), format);
      |c| == 81 && forall i :: 0 <= i < |c| ==> c[i].condition.constant == i
  {
    UnitStep(DefaultConfig(position), format);
  }

  /** A list laid out as multiples of one below `m`, then `m`, counts `0, 1, ..., m`. */
  lemma UnitLayout(c: seq<DisplayCondition>, m: int)
    requires |c| >= 2 && c[|c| - 1].condition.constant == m
    requires forall i :: 0 <= i < |c| - 1 ==> c[i].condition.constant == i * 1
    requires (|c| - 2) * 1 < m <= (|c| - 1) * 1
    ensures |c| == m + 1 && forall i :: 0 <= i < |c| ==> c[i].condition.constant == i
  {
  }

  // ---------------------------------------------------------------------------------
  // Which condition the display panel shows
  // ---------------------------------------------------------------------------------

  /** Whether a circuit condition holds when its signal has value `v`. */
  predicate Holds(condition: CircuitCondition, v: int) {
    match condition.comparator
    case LessOrEqual => v <= condition.constant
    case Equal => v == condition.constant
    case GreaterOrEqual => v >= condition.constant
  }

  /** Whether some condition of the list holds for signal value `v`. */
  predicate Shown(conditions: seq<DisplayCondition>, v: int) {
    exists i :: 0 <= i < |conditions| && Holds(conditions[i].condition, v)
  }

  /** For any signal value at most one condition of the list holds. */
  lemma AtMostOneHolds(config: PBarConfig, format: PercentFormat, v: int, i: int, j: int)
    requires ValidConfig(config)
    requires 0 <= i < |Conditions(config, format)| && 0 <= j < |Conditions(config, format)|
    requires Holds(Conditions(config, format)[i].condition, v) && Holds(Conditions(config, format)[j].condition, v)
    ensures i == j
  {
    ComparatorLayout(config, format);
    ThresholdLayout(config, format);
  }

  /** Every signal value has a condition that holds exactly when the spacing is one. */
  lemma CoverageIffUnitStep(config: PBarConfig, format: PercentFormat)
    requires ValidConfig(config)
    ensures (forall v :: Shown(Conditions(config, format), v)) <==> config.stepSize == 1
  {
    ComparatorLayout(config, format);
    ThresholdLayout(config, format);
    CoverageOf(Conditions(config, format), config.length * Divs, config.stepSize);
  }

  /** Coverage of a list with `<=` first, `>=` last, `=` between, and thresholds `0, k, 2k, ...` then `m`. */
  lemma CoverageOf(c: seq<DisplayCondition>, m: int, k: int)
    requires k >= 1 && m >= 2 && |c| >= 2 && c[|c| - 1].condition.constant == m
    requires forall i :: 0 <= i < |c| - 1 ==> c[i].condition.constant == i * k
    requires (|c| - 2) * k < m <= (|c| - 1) * k
    requires c[0].condition.comparator == LessOrEqual && c[|c| - 1].condition.comparator == GreaterOrEqual
    requires forall i :: 0 < i < |c| - 1 ==> c[i].condition.comparator == Equal
    ensures (forall v :: Shown(c, v)) <==> k == 1
  {
    var n := |c|;
    if k == 1 {
      assert n == m + 1;
      forall v ensures Shown(c, v) {
        if v <= 0 {
          assert Holds(c[0].condition, v);
        } else if v >= m {
          assert Holds(c[n - 1].condition, v);
        } else {
          assert Holds(c[v].condition, v);
        }
      }
    } else {
      forall i | 0 <= i < n ensures !Holds(c[i].condition, 1) {
        if 0 < i < n - 1 {
          MulMono(1, i, k);
        }
      }
      assert !Shown(c, 1);
    }
  }

  // ---------------------------------------------------------------------------------
  // Bars
  // ---------------------------------------------------------------------------------

  /** How many eighths of a block a glyph of `Substeps` shows; 0 for any other character. */
  function GlyphEighths(c: char): int {
    if '\U{2588}' <= c <= '\U{258F}' then 0x2590 - c as int else 0
  }

  /** How many eighths of a block a run of glyphs shows. */
  function Eighths(s: string): int {
    if s == [] then 0 else GlyphEighths(s[0]) + Eighths(s[1..])
  }

  lemma {:induction false} EighthsConcat(a: string, b: string)
    ensures Eighths(a + b) == Eighths(a) + Eighths(b)
  {
    if a == [] {
      assert a + b == b;
    } else {
      assert (a + b)[0] == a[0];
      assert (a + b)[1..] == a[1..] + b;
      EighthsConcat(a[1..], b);
    }
  }

  lemma {:induction false} EighthsFull(n: int)
    ensures Eighths(Repeat(Full, n)) == 8 * Max(n, 0)
    decreases n
  {
    if n > 0 {
      EighthsFull(n - 1);
    }
  }

  /** The `j`-th glyph of `Substeps` shows `j + 1` eighths. */
  lemma SubstepEighths(j: int)
    requires 0 <= j < Divs
    ensures Substeps[j] in Substeps && GlyphEighths(Substeps[j]) == j + 1
  {
    if j == 0 {
    } else if j == 1 {
    } else if j == 2 {
    } else if j == 3 {
    } else if j == 4 {
    } else if j == 5 {
    } else if j == 6 {
    } else {
    }
  }

  /** The whole bar for loop value `step`: the filled part and the full blocks after it. */
  function Blocks(length: int, step: int): string {
    FilledGlyphs(step) + Repeat(Full, RemainingBlocks(length, step))
  }

  /**
   * For every loop value `step` the bar holds exactly `length` block glyphs: the filled
   * part shows `step + 1` eighths (the threshold), every glyph of it but the last is a
   * full block, and the count of blocks after it is never negative.
   */
  lemma BarLayout(length: int, step: int)
    requires length >= 1 && -1 <= step < length * Divs
    ensures RemainingBlocks(length, step) >= 0
    ensures |FilledGlyphs(step)| + RemainingBlocks(length, step) == length == |Blocks(length, step)|
    ensures Eighths(FilledGlyphs(step)) == step + 1
    ensures forall i :: 0 <= i < |Blocks(length, step)| ==> Blocks(length, step)[i] in Substeps
    ensures forall i :: 0 <= i < |FilledGlyphs(step)| - 1 ==> FilledGlyphs(step)[i] == Full
    ensures step == -1 ==> Blocks(length, step) == Repeat(Full, length)
  {
    var filled := FilledGlyphs(step);
    var rest := Repeat(Full, RemainingBlocks(length, step));
    RepeatChars(Full, RemainingBlocks(length, step));
    assert Full in Substeps by {
      assert Substeps[7] == Full;
    }
    if step >= 0 {
      var full := Repeat(Full, step / Divs);
      RepeatChars(Full, step / Divs);
      SubstepEighths(step % Divs);
      EighthsFull(step / Divs);
      EighthsConcat(full, [Substeps[step % Divs]]);
      assert filled == full + [Substeps[step % Divs]];
      assert Eighths([Substeps[step % Divs]]) == step % Divs + 1;
      forall i | 0 <= i < |filled| ensures filled[i] in Substeps {
        if i < |full| {
          assert filled[i] == full[i];
        }
      }
      forall i | 0 <= i < |filled| - 1 ensures filled[i] == Full {
        assert filled[i] == full[i];
      }
    }
    forall i | 0 <= i < |filled + rest| ensures (filled + rest)[i] in Substeps {
      if i >= |filled| {
        assert (filled + rest)[i] == rest[i - |filled|];
      } else {
        assert (filled + rest)[i] == filled[i];
      }
    }
  }

  // ---------------------------------------------------------------------------------
  // Labels
  // ---------------------------------------------------------------------------------

  /**
   * The label is the padded percentage without its leading spaces, and as many `0`
   * fillers go into the bar as spaces were stripped, so label and fillers together
   * always take the width of the padded field.
   */
  lemma LabelFillers(percent: string)
    ensures LabelPadding(percent) == LeadingSpaces(PaddedLabel(percent))
    ensures Label(percent) == PaddedLabel(percent)[LabelPadding(percent)..]
    ensures LabelPadding(percent) + |Label(percent)| == Max(|percent|, 5) + 1
  {
    var padded := PaddedLabel(percent);
    var a := LeadingSpaces(padded);
    assert padded[|padded| - 1] == '%';
    LeadingSpacesRun(padded);
    var rest := padded[a..];
    assert rest[|rest| - 1] == '%';
    assert TrailingSpaces(rest) == 0;
    assert rest[..|rest|] == rest;
  }

  /**
   * For a `%.1f` numeral (no whitespace in it) the label is the numeral and `%`, and the
   * fillers make up the difference to six characters.
   */
  lemma NumeralLabel(percent: string)
    requires forall i :: 0 <= i < |percent| ==> !IsSpace(percent[i])
    ensures Label(percent) == percent + "%"
    ensures LabelPadding(percent) == Max(5 - |percent|, 0)
  {
    var padded := PaddedLabel(percent);
    var pad := Repeat(' ', 5 - |percent|);
    RepeatChars(' ', 5 - |percent|);
    assert padded == pad + (percent + "%");
    LabelFillers(percent);
    LeadingSpacesRun(padded);
    var a := LeadingSpaces(padded);
    forall k | 0 <= k < |pad| ensures IsSpace(padded[k]) {
      assert padded[k] == pad[k];
    }
    assert padded[|pad|] == (percent + "%")[0];
    assert a == |pad|;
  }

  // ---------------------------------------------------------------------------------
  // Colour
  // ---------------------------------------------------------------------------------

  /**
   * A segment is wrapped in a colour tag exactly when there is a colour map and the
   * segment is non-empty; otherwise it is left as it is.
   */
  lemma TintedWraps(cmap: Option<ColorMap>, num: int, den: int, segment: string)
    ensures Tinted(cmap, num, den, segment) == segment <==> cmap.None? || segment == []
    ensures cmap.Some? && segment != [] ==>
      Tinted(cmap, num, den, segment) == "[color=" + cmap.value(num, den) + "]" + segment + "[/color]"
  {
    if cmap.Some? && segment != [] {
      var t := Tinted(cmap, num, den, segment);
      assert |t| > |segment|;
    }
  }
}
