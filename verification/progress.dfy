/**
 * The progress-bar generator: the list of display-panel conditions, one per discrete
 * state of a bar drawn with Unicode eighth-block glyphs. The colour map and the
 * `%.1f` formatting of the percentage, both floating point in `progress.py`, are
 * parameters of the model.
 */
module Progress {
  import opened Wrappers
  import opened PyStr

  /** The glyphs `▏▎▍▌▋▊▉█`: one to eight eighths of a block. */
  const Substeps: string := "\U{258F}\U{258E}\U{258D}\U{258C}\U{258B}\U{258A}\U{2589}\U{2588}"
  /** `len(substeps)`: eighths per block. */
  const Divs: int := 8
  /** `█`, the last glyph: a full block. */
  const Full: char := '\U{2588}'
  const FontTag: string := "[font=technology-slot-level-font]"
  const FontEnd: string := "[/font]"

  /**
   * `rgb2hex(cmap(num / den))`: the colour the map gives the fraction `num / den`.
   * The fraction is passed as two integers because the Python code divides in floating point.
   */
  type ColorMap = (int, int) -> string

  /** `format(num / den * 100, ".1f")`: the percentage of the fraction `num / den`. */
  type PercentFormat = (int, int) -> string

  datatype Comparator = LessOrEqual | Equal | GreaterOrEqual

  /** A constant combinator condition: `first_signal comparator constant`. */
  datatype CircuitCondition = CircuitCondition(firstSignal: string, constant: int, comparator: Comparator)

  /** One display-panel message: shown while its condition holds. */
  datatype DisplayCondition = DisplayCondition(condition: CircuitCondition, icon: string, text: string)

  /** `PBarConfig`: where the panel goes, which signal drives it, and how the bar looks. */
  datatype PBarConfig = PBarConfig(
    position: (int, int),
    signalName: string,
    prefix: string,
    cmap: Option<ColorMap>,
    length: int,
    stepSize: int)

  /** The configurations the generator runs on: a non-empty bar, a positive spacing. */
  predicate ValidConfig(config: PBarConfig) {
    config.length >= 1 && config.stepSize >= 1
  }

  /** `PBarConfig(position)`: every other field at its default. */
  function DefaultConfig(position: (int, int)): (config: PBarConfig)
    ensures ValidConfig(config) && config.length == 10 && config.stepSize == 1
    ensures config.length * Divs == 80 && config.position == position
    ensures config.signalName == "parameter-0" && config.prefix == [] && config.cmap.None?
  {
    PBarConfig(position, "parameter-0", "", None, 10, 1)
  }

  function Max(a: int, b: int): int {
    if a < b then b else a
  }

  /** `list(range(start, stop, step))` for a positive step. */
  function Range(start: int, stop: int, step: int): (r: seq<int>)
    requires step >= 1
    ensures r == [] <==> start >= stop
    ensures forall i :: 0 <= i < |r| ==> start <= r[i] < stop
    ensures r != [] ==> r[0] == start && r[|r| - 1] + step >= stop
    decreases stop - start
  {
    if start >= stop then [] else [start] + Range(start + step, stop, step)
  }

  /** The loop values of the generator: `-1, -1 + k, ...` below `8 * length`, then `8 * length - 1` if missed. */
  function Steps(config: PBarConfig): seq<int>
    requires ValidConfig(config)
  {
    var maxThreshold := config.length * Divs;
    var base := Range(-1, maxThreshold, config.stepSize);
    if base[|base| - 1] < maxThreshold - 1 then base + [maxThreshold - 1] else base
  }

  /** The filled part of the bar for loop value `step`: full blocks, then one partial glyph. */
  function FilledGlyphs(step: int): string
  {
    if step == -1 then [] else Repeat(Full, Max(step / Divs, 0)) + [Substeps[step % Divs]]
  }

  /** How many full blocks make up the rest of the bar after the filled part. */
  function RemainingBlocks(length: int, step: int): int {
    length - Max(step / Divs, 0) - (if step == -1 then 0 else 1)
  }

  /** The percentage field `f"{x:>5.1f}%"` before it is stripped. */
  function PaddedLabel(percent: string): string {
    PadLeft(percent, 5) + "%"
  }

  /** The label shown after the bar: the percentage field without its padding. */
  function Label(percent: string): string {
    Strip(PaddedLabel(percent))
  }

  /** How many padding characters stripping removed: as many `0` fillers go into the bar. */
  function LabelPadding(percent: string): int {
    |PaddedLabel(percent)| - |Label(percent)|
  }

  /** `[color=C]segment[/color]` when there is a colour map and the segment is non-empty. */
  function Tinted(cmap: Option<ColorMap>, num: int, den: int, segment: string): string {
    if cmap.Some? && segment != [] then "[color=" + cmap.value(num, den) + "]" + segment + "[/color]"
    else segment
  }

  /** The text of the condition for loop value `step` (threshold `step + 1`). */
  function ConditionText(config: PBarConfig, format: PercentFormat, step: int): string
  {
    var maxThreshold := config.length * Divs;
    var threshold := step + 1;
    var percent := format(threshold, maxThreshold);
    var bar := Tinted(config.cmap, step, maxThreshold - 1, FilledGlyphs(step));
    var rest := Repeat(Full, RemainingBlocks(config.length, step)) + Repeat('0', LabelPadding(percent));
    var end := Tinted(config.cmap, threshold, maxThreshold - 1, rest);
    config.prefix + FontTag + (bar + end) + FontEnd + "  " + Label(percent)
  }

  /** The text of a condition, assembled from its already computed parts. */
  lemma TextOfParts(config: PBarConfig, format: PercentFormat, step: int, maxThreshold: int,
                    bar: string, end: string, caption: string)
    requires maxThreshold == config.length * Divs
    requires bar == Tinted(config.cmap, step, maxThreshold - 1, FilledGlyphs(step))
    requires end == Tinted(config.cmap, step + 1, maxThreshold - 1,
      Repeat(Full, RemainingBlocks(config.length, step)) + Repeat('0', LabelPadding(format(step + 1, maxThreshold))))
    requires caption == Label(format(step + 1, maxThreshold))
    ensures config.prefix + FontTag + (bar + end) + FontEnd + "  " + caption == ConditionText(config, format, step)
  {
  }

  /** Comparator of the `i`-th of `n` conditions once the first and last are overwritten. */
  function ComparatorAt(i: nat, n: nat): Comparator {
    if i == n - 1 then GreaterOrEqual else if i == 0 then LessOrEqual else Equal
  }

  /** The condition for loop value `step`, with the comparator it ends up with. */
  function ConditionFor(config: PBarConfig, format: PercentFormat, step: int, comparator: Comparator): DisplayCondition
  {
    DisplayCondition(
      CircuitCondition(config.signalName, step + 1, comparator),
      config.signalName,
      ConditionText(config, format, step))
  }

  /** The list `generate_pbar_conditions` returns. */
  function Conditions(config: PBarConfig, format: PercentFormat): seq<DisplayCondition>
    requires ValidConfig(config)
  {
    var steps := Steps(config);
    seq(|steps|, i requires 0 <= i < |steps| => ConditionFor(config, format, steps[i], ComparatorAt(i, |steps|)))
  }

  /** `f` applied to each of the first `i` values of `steps`, in order. */
  function MapFirst<T>(f: int -> T, steps: seq<int>, i: nat): (r: seq<T>)
    requires i <= |steps|
    ensures |r| == i
  {
    if i == 0 then [] else MapFirst(f, steps, i - 1) + [f(steps[i - 1])]
  }

  lemma {:induction false} MapFirstAt<T>(f: int -> T, steps: seq<int>, i: nat, j: int)
    requires i <= |steps| && 0 <= j < i
    ensures MapFirst(f, steps, i)[j] == f(steps[j])
  {
    if j < i - 1 {
      MapFirstAt(f, steps, i - 1, j);
    }
  }

  /** The conditions for the first `i` loop values of `steps`, each still with the template's `=`. */
  function Unfinished(config: PBarConfig, format: PercentFormat, steps: seq<int>, i: nat): (r: seq<DisplayCondition>)
    requires i <= |steps|
    ensures |r| == i
  {
    MapFirst(step => ConditionFor(config, format, step, Equal), steps, i)
  }

  /**
   * One pass of the loop of `generate_pbar_conditions`: draw the bar for loop value
   * `step`, build the label, and fill a copy of the template with threshold and text.
   */
  method BuildCondition(config: PBarConfig, format: PercentFormat, template: DisplayCondition, step: int)
    returns (cond: DisplayCondition)
    requires template == DisplayCondition(CircuitCondition(config.signalName, 0, Equal), config.signalName, "")
    ensures cond == ConditionFor(config, format, step, Equal)
  {
    var divs := |Substeps|;
    assert divs == Divs;
    var maxThreshold := config.length * divs;
    var numBefore := Max(step / divs, 0);
    var numCur := step % divs;
    var numAfter := config.length - numBefore;

    var bar: string;
    if step == -1 {
      bar := "";
    } else {
      bar := Repeat(Substeps[divs - 1], numBefore);
      numAfter := numAfter - 1;
      bar := bar + [Substeps[numCur]];
    }
    ghost var glyphs := bar;
    assert glyphs == FilledGlyphs(step) && numAfter == RemainingBlocks(config.length, step);

    if config.cmap.Some? {
      var color := config.cmap.value(step, maxThreshold - 1);
      if bar != [] {
        bar := "[color=" + color + "]" + bar + "[/color]";
      }
    }
    assert bar == Tinted(config.cmap, step, maxThreshold - 1, glyphs);

    var threshold := step + 1;
    var postfix := PadLeft(format(threshold, config.length * divs), 5) + "%";
    var numPostfixPrefix := |postfix| - |Strip(postfix)|;
    postfix := Strip(postfix);
    assert postfix == Label(format(threshold, maxThreshold));
    assert numPostfixPrefix == LabelPadding(format(threshold, maxThreshold));

    var end := Repeat(Substeps[divs - 1], numAfter) + Repeat('0', numPostfixPrefix);
    ghost var tail := end;
    if end != [] && config.cmap.Some? {
      var color := config.cmap.value(threshold, maxThreshold - 1);
      end := "[color=" + color + "]" + end + "[/color]";
    }
    assert end == Tinted(config.cmap, threshold, maxThreshold - 1, tail);

    var pbar := bar + end;
    var text := config.prefix + FontTag + pbar + FontEnd + "  " + postfix;
    TextOfParts(config, format, step, maxThreshold, bar, end, postfix);
    cond := template.(condition := template.condition.(constant := threshold), text := text);
  }

  /** The loop values: `list(range(-1, max_threshold, step_size))`, completed by `max_threshold - 1`. */
  method LoopValues(config: PBarConfig) returns (steps: seq<int>)
    requires ValidConfig(config)
    ensures steps == Steps(config)
  {
    var divs := |Substeps|;
    assert divs == Divs;
    var maxThreshold := config.length * divs;
    steps := Range(-1, maxThreshold, config.stepSize);
    if steps[|steps| - 1] < maxThreshold - 1 {
      steps := steps + [maxThreshold - 1];
    }
  }

  /**
   * `generate_pbar_conditions`: one condition per loop value, in order; then the first
   * comparator is overwritten with `<=` and the last with `>=`.
   */
  method GeneratePbarConditions(config: PBarConfig, format: PercentFormat) returns (conditions: seq<DisplayCondition>)
    requires ValidConfig(config)
    ensures conditions == Conditions(config, format)
  {
    var template := DisplayCondition(CircuitCondition(config.signalName, 0, Equal), config.signalName, "");
    var steps := LoopValues(config);

    conditions := [];
    var i := 0;
    while i < |steps|
      invariant 0 <= i <= |steps|
      invariant conditions == Unfinished(config, format, steps, i)
    {
      var cond := BuildCondition(config, format, template, steps[i]);
      conditions := conditions + [cond];
      i := i + 1;
    }

    ghost var built := conditions;
    var first := conditions[0];
    conditions := conditions[0 := first.(condition := first.condition.(comparator := LessOrEqual))];
    ghost var once := conditions;
    var last := conditions[|conditions| - 1];
    conditions := conditions[|conditions| - 1 := last.(condition := last.condition.(comparator := GreaterOrEqual))];
    EndsOverwritten(built, once, conditions);
    Finished(config, format, built, conditions);
  }

  /** After the two overwrites each condition carries the comparator of its place. */
  lemma EndsOverwritten(built: seq<DisplayCondition>, once: seq<DisplayCondition>, final: seq<DisplayCondition>)
    requires |built| > 0
    requires once == built[0 := built[0].(condition := built[0].condition.(comparator := LessOrEqual))]
    requires final == once[|once| - 1 := once[|once| - 1].(condition := once[|once| - 1].condition.(comparator := GreaterOrEqual))]
    ensures |final| == |built|
    ensures forall j :: 0 <= j < |final| ==> final[j] == Placed(built, j)
  {
    var n := |built|;
    forall j | 0 <= j < n ensures final[j] == Placed(built, j) {
      if j == n - 1 {
        assert final[j] == once[j].(condition := once[j].condition.(comparator := GreaterOrEqual));
      } else {
        assert final[j] == once[j];
      }
    }
  }

  /** The `j`-th built condition as the overwrites leave it: the ends get their own comparator. */
  function Placed(built: seq<DisplayCondition>, j: int): DisplayCondition
    requires 0 <= j < |built|
  {
    var n := |built|;
    if j == 0 || j == n - 1 then built[j].(condition := built[j].condition.(comparator := ComparatorAt(j, n)))
    else built[j]
  }

  /** Giving each condition built with `=` the comparator of its place yields the final list. */
  lemma Finished(config: PBarConfig, format: PercentFormat, built: seq<DisplayCondition>, final: seq<DisplayCondition>)
    requires ValidConfig(config) && built == Unfinished(config, format, Steps(config), |Steps(config)|)
    requires |final| == |built|
    requires forall j :: 0 <= j < |final| ==> final[j] == Placed(built, j)
    ensures final == Conditions(config, format)
  {
    forall j | 0 <= j < |final| ensures final[j] == Conditions(config, format)[j] {
      MapFirstAt(step => ConditionFor(config, format, step, Equal), Steps(config), |Steps(config)|, j);
    }
  }
}
