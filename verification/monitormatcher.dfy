/** `Solanum::Monitor::Matcher` of lib/solanum/monitor/matcher.rb: a line
    pattern paired with a calculation run on the match.  The regex is a
    function from a line to its match data (none when it does not match);
    the calculation runs against the metrics and may raise.  `Time.now`, as
    read by a calculation, is the parameter `now`. */
module MonitorMatcher {
  import opened Wrappers

  /** Match data: the capture groups, group 0 being the whole match; a group
      that took no part in the match is nil. */
  type Captures = seq<Option<string>>

  type Pattern = string -> Option<Captures>

  /** The block (`calc`), run with `metrics.instance_exec $~`. */
  type Calc<!M> = (M, Captures, real) -> Result<M, string>

  datatype Matcher<!M> = Matcher(pattern: Pattern, run: Calc<M>)

  const NoPattern: string := "pattern must be provided"
  const NoBlock: string := "block must be provided"
  const NoLine: string := "line must be provided"
  const NoMetrics: string := "metrics must be provided"

  /** `Matcher.new(pattern, &block)`: the pattern is checked first. */
  function New<M>(pattern: Option<Pattern>, block: Option<Calc<M>>): (r: Result<Matcher<M>, string>)
    ensures r.Ok? <==> pattern.Some? && block.Some?
    ensures r.Ok? ==> r.value.pattern == pattern.value && r.value.run == block.value
    ensures pattern.None? ==> r == Err(NoPattern)
    ensures pattern.Some? && block.None? ==> r == Err(NoBlock)
  {
    if pattern.None? then Err(NoPattern)
    else if block.None? then Err(NoBlock)
    else Ok(Matcher(pattern.value, block.value))
  }

  /** `match(line, metrics)`: whether the line matched, and the metrics after
      the calculation ran on it. */
  function Match<M>(mt: Matcher<M>, line: Option<string>, metrics: Option<M>, now: real): (r: Result<(bool, M), string>)
    ensures line.None? ==> r == Err(NoLine)
    ensures line.Some? && metrics.None? ==> r == Err(NoMetrics)
    ensures r.Ok? ==> (r.value.0 <==> mt.pattern(line.value).Some?)
    ensures r.Ok? && !r.value.0 ==> r.value.1 == metrics.value
    ensures line.Some? && metrics.Some? && mt.pattern(line.value).None? ==> r == Ok((false, metrics.value))
    ensures line.Some? && metrics.Some? && mt.pattern(line.value).Some? ==>
      match mt.run(metrics.value, mt.pattern(line.value).value, now)
      case Ok(m) => r == Ok((true, m))
      case Err(e) => r == Err(e)
  {
    if line.None? then Err(NoLine)
    else if metrics.None? then Err(NoMetrics)
    else
      match mt.pattern(line.value)
      case None => Ok((false, metrics.value))
      case Some(caps) =>
        match mt.run(metrics.value, caps, now)
        case Ok(m) => Ok((true, m))
        case Err(e) => Err(e)
  }

  /** Group `i` of the match data, nil past the last group (`m[i]`). */
  function Group(caps: Captures, i: nat): (r: Option<string>)
    ensures i < |caps| ==> r == caps[i]
    ensures i >= |caps| ==> r.None?
  {
    if i < |caps| then caps[i] else None
  }

  /** A matcher built from a pattern and a block matches exactly where its
      pattern does, and runs exactly that block. */
  lemma NewThenMatch<M>(p: Pattern, b: Calc<M>, line: string, metrics: M, now: real)
    ensures New(Some(p), Some(b)).Ok?
    ensures p(line).None? ==> Match(New(Some(p), Some(b)).value, Some(line), Some(metrics), now) == Ok((false, metrics))
    ensures p(line).Some? && b(metrics, p(line).value, now).Ok? ==>
      Match(New(Some(p), Some(b)).value, Some(line), Some(metrics), now) == Ok((true, b(metrics, p(line).value, now).value))
  {
  }
}
