/** `Solanum::Lang::InputContext#match` of lib/solanum/lang/input_context.rb:
    checks the options of a `match` declaration and adds one matcher to the
    source.  The matcher's calculation runs against the category-tree
    metrics of solanum/metrics.rb. */
module InputContext {
  import opened Wrappers
  import opened Symbols
  import MetricRecord
  import TreeMetrics
  import opened MonitorMatcher
  import MonitorSource

  /** The conversion `m[1].send op` applies to capture group 1. */
  type Conv = Option<string> -> MetricRecord.Value

  /** The options hash: `:record`, `:measure`, `:as` and `:unit`. */
  datatype Options = Options(record: Option<string>, measure: Option<string>, conv: Option<Conv>, unit: UnitArg)

  type Metrics = TreeMetrics.Metrics

  const NoAction: string := "Must supply one of :record, :measure, or a block"
  const TooManyActions: string := "Only one of :record, :measure, or a block should be provided"
  /** `Matcher.new(pattern, block)` against `def initialize(pattern, &block)`. */
  const PositionalBlock: string := "wrong number of arguments (given 2, expected 1)"

  /** `:to_s`, the default conversion: a missing group becomes "". */
  function ToS(g: Option<string>): (v: MetricRecord.Value)
    ensures v.Str? && v.s == (if g.Some? then g.value else "")
  {
    MetricRecord.Str(if g.Some? then g.value else "")
  }

  /** How many of `:record`, `:measure` and a block were supplied. */
  function Commands(opts: Options, block: Option<Calc<Metrics>>): (n: nat)
    ensures n <= 3
    ensures n == 0 <==> opts.record.None? && opts.measure.None? && block.None?
    ensures n == 1 <==> (opts.record.Some? && opts.measure.None? && block.None?) ||
                        (opts.record.None? && opts.measure.Some? && block.None?) ||
                        (opts.record.None? && opts.measure.None? && block.Some?)
  {
    (if opts.record.Some? then 1 else 0) + (if opts.measure.Some? then 1 else 0) + (if block.Some? then 1 else 0)
  }

  /** The value an extractor records for a match. */
  function Extracted(opts: Options, caps: Captures): (v: MetricRecord.Value)
    ensures opts.conv.None? ==> v == ToS(Group(caps, 1))
    ensures opts.conv.Some? ==> v == opts.conv.value(Group(caps, 1))
  {
    if opts.conv.Some? then opts.conv.value(Group(caps, 1)) else ToS(Group(caps, 1))
  }

  /** The lambda built for `:record` (or, with `measure`, for `:measure`). */
  function Extractor(path: string, opts: Options, measure: bool): Calc<Metrics> {
    (m: Metrics, caps: Captures, now: real) =>
      if measure then TreeMetrics.Measure(m, path, Extracted(opts, caps), opts.unit, now)
      else TreeMetrics.Record(m, path, Extracted(opts, caps), opts.unit, now)
  }

  /** The checks `match` makes before building anything. */
  function Validate(pattern: Option<Pattern>, opts: Options, block: Option<Calc<Metrics>>): (r: Option<string>)
    ensures r.None? <==> pattern.Some? && Commands(opts, block) == 1
    ensures pattern.None? ==> r == Some(NoPattern)
    ensures pattern.Some? && Commands(opts, block) == 0 ==> r == Some(NoAction)
    ensures pattern.Some? && Commands(opts, block) > 1 ==> r == Some(TooManyActions)
  {
    if pattern.None? then Some(NoPattern)
    else if Commands(opts, block) == 0 then Some(NoAction)
    else if Commands(opts, block) > 1 then Some(TooManyActions)
    else None
  }

  /** The calculation of a validated declaration. */
  function Action(opts: Options, block: Option<Calc<Metrics>>): (c: Calc<Metrics>)
    requires Commands(opts, block) == 1
    ensures opts.record.Some? ==> c == Extractor(opts.record.value, opts, false)
    ensures opts.measure.Some? ==> c == Extractor(opts.measure.value, opts, true)
    ensures block.Some? ==> c == block.value
  {
    if opts.record.Some? then Extractor(opts.record.value, opts, false)
    else if opts.measure.Some? then Extractor(opts.measure.value, opts, true)
    else block.value
  }

  /** `match(pattern, options, &block)` as written: the block is passed to
      `Matcher.new` as a second positional argument, which its constructor
      does not accept, so every declaration that passes validation raises. */
  function MatchAsWritten(src: MonitorSource.Source<Metrics>, pattern: Option<Pattern>, opts: Options, block: Option<Calc<Metrics>>): (r: Result<MonitorSource.Source<Metrics>, string>)
    ensures Validate(pattern, opts, block).Some? ==> r == Err(Validate(pattern, opts, block).value)
    ensures Validate(pattern, opts, block).None? ==> r == Err(PositionalBlock)
  {
    match Validate(pattern, opts, block)
    case Some(e) => Err(e)
    case None => Err(PositionalBlock)
  }

  /** `match(pattern, options, &block)` as evidently intended: the block is
      handed to `Matcher.new` as its block, and the new matcher is added to
      the source. */
  function Match(src: MonitorSource.Source<Metrics>, pattern: Option<Pattern>, opts: Options, block: Option<Calc<Metrics>>): (r: Result<MonitorSource.Source<Metrics>, string>)
    ensures r.Ok? <==> Validate(pattern, opts, block).None?
    ensures r.Err? ==> r.error == Validate(pattern, opts, block).value
    ensures r.Ok? ==> r.value.kind == src.kind && r.value.value == src.value
    ensures r.Ok? ==> |r.value.matchers| == |src.matchers| + 1 && r.value.matchers[..|src.matchers|] == src.matchers
    ensures r.Ok? ==> r.value.matchers[|src.matchers|] == Matcher(pattern.value, Action(opts, block))
  {
    match Validate(pattern, opts, block)
    case Some(e) => Err(e)
    case None =>
      var mt := New(pattern, Some(Action(opts, block)));
      var r := MonitorSource.AddMatcher(src, mt.value);
      assert r.matchers[..|src.matchers|] == src.matchers;
      Ok(r)
  }

  /** As written, no declaration ever adds a matcher. */
  lemma AsWrittenNeverAdds(src: MonitorSource.Source<Metrics>, pattern: Option<Pattern>, opts: Options, block: Option<Calc<Metrics>>)
    ensures MatchAsWritten(src, pattern, opts, block).Err?
  {
  }

  /** The smallest declaration that shows it: `match pattern, record: path`. */
  lemma RecordDeclarationDiffers(src: MonitorSource.Source<Metrics>, p: Pattern, path: string)
    ensures MatchAsWritten(src, Some(p), Options(Some(path), None, None, NoUnit), None) == Err(PositionalBlock)
    ensures Match(src, Some(p), Options(Some(path), None, None, NoUnit), None).Ok?
  {
    assert Commands(Options(Some(path), None, None, NoUnit), None) == 1;
  }

  /** A `:record` matcher, on a line its pattern matches, records capture
      group 1 (converted) at the path, as `record` would. */
  lemma RecordMatcherRecords(src: MonitorSource.Source<Metrics>, p: Pattern, path: string, opts: Options, line: string, m: Metrics, now: real)
    requires opts.record == Some(path) && opts.measure.None?
    requires p(line).Some?
    ensures Match(src, Some(p), opts, None).Ok?
    ensures var mt := Match(src, Some(p), opts, None).value.matchers[|src.matchers|];
      var rec := TreeMetrics.Record(m, path, Extracted(opts, p(line).value), opts.unit, now);
      rec.Ok? ==> MonitorMatcher.Match(mt, Some(line), Some(m), now) == Ok((true, rec.value))
  {
    assert Commands(opts, None) == 1;
  }

  /** A `:measure` matcher, on a line its pattern matches, measures capture
      group 1 (converted) at the path. */
  lemma MeasureMatcherMeasures(src: MonitorSource.Source<Metrics>, p: Pattern, path: string, opts: Options, line: string, m: Metrics, now: real)
    requires opts.record.None? && opts.measure == Some(path)
    requires p(line).Some?
    ensures Match(src, Some(p), opts, None).Ok?
    ensures var mt := Match(src, Some(p), opts, None).value.matchers[|src.matchers|];
      var res := TreeMetrics.Measure(m, path, Extracted(opts, p(line).value), opts.unit, now);
      res.Ok? ==> MonitorMatcher.Match(mt, Some(line), Some(m), now) == Ok((true, res.value))
  {
    assert Commands(opts, None) == 1;
  }
}
