/** The line matchers of lib/solanum/matcher.rb.  A `LinePattern` folds a
    function over every line its pattern matches; a raise while handling one
    line is reported and that line is skipped.  The pattern and the function
    come from configuration and are parameters here: the pattern maps a line
    to its match data (or none), the function maps the metrics so far and the
    match data to new metrics, or raises. */
module LineMatcher {
  import opened Wrappers

  /** What calling the configured function did. */
  datatype Outcome<M> = Returned(metrics: M) | Raised

  /** `Solanum::Matcher` (which passes metrics through) and its subclass
      `LinePattern`. */
  datatype Matcher<!M, !Md> =
    | Plain(fn: (M, Md) -> Outcome<M>)
    | LinePattern(fn: (M, Md) -> Outcome<M>, pattern: string -> Option<Md>)

  /** `Matcher.new(fn)`: nil is refused. */
  function NewMatcher<M, Md>(fn: Option<(M, Md) -> Outcome<M>>): (r: Result<Matcher<M, Md>, string>)
    ensures fn.None? <==> r == Err("function must be provided")
    ensures fn.Some? ==> r.Ok? && r.value.Plain? && r.value.fn == fn.value
  {
    match fn
    case None => Err("function must be provided")
    case Some(f) => Ok(Plain(f))
  }

  /** `LinePattern.new(fn, pattern)`: the function is checked first. */
  function NewLinePattern<M, Md>(fn: Option<(M, Md) -> Outcome<M>>, pattern: Option<string -> Option<Md>>)
    : (r: Result<Matcher<M, Md>, string>)
    ensures fn.None? ==> r == Err("function must be provided")
    ensures fn.Some? && pattern.None? ==> r == Err("pattern must be provided")
    ensures r.Ok? <==> fn.Some? && pattern.Some?
    ensures r.Ok? ==> r.value == LinePattern(fn.value, pattern.value)
  {
    match fn
    case None => Err("function must be provided")
    case Some(f) =>
      match pattern
      case None => Err("pattern must be provided")
      case Some(p) => Ok(LinePattern(f, p))
  }

  /** One step of the `reduce`: a non-matching line, and a line whose
      function raises, both leave the metrics as they were. */
  function Step<M, Md>(fn: (M, Md) -> Outcome<M>, pattern: string -> Option<Md>, m: M, line: string): M {
    match pattern(line)
    case None => m
    case Some(md) =>
      match fn(m, md)
      case Returned(m') => m'
      case Raised => m
  }

  /** `lines.reduce(metrics)` with `Step`. */
  function Fold<M, Md>(fn: (M, Md) -> Outcome<M>, pattern: string -> Option<Md>, m: M, lines: seq<string>): M
    decreases |lines|
  {
    if |lines| == 0 then m
    else Fold(fn, pattern, Step(fn, pattern, m, lines[0]), lines[1..])
  }

  /** Folding over two batches of lines is folding over the first and then
      the second from where it left off. */
  lemma {:induction false} FoldAppend<M, Md>(fn: (M, Md) -> Outcome<M>, pattern: string -> Option<Md>, m: M, a: seq<string>, b: seq<string>)
    ensures Fold(fn, pattern, m, a + b) == Fold(fn, pattern, Fold(fn, pattern, m, a), b)
  {
    if |a| == 0 {
      assert a + b == b;
    } else {
      assert (a + b)[1..] == a[1..] + b;
      FoldAppend(fn, pattern, Step(fn, pattern, m, a[0]), a[1..], b);
    }
  }

  /** A line that has no effect: it does not match, or its function raises. */
  predicate Inert<M, Md>(fn: (M, Md) -> Outcome<M>, pattern: string -> Option<Md>, m: M, line: string) {
    pattern(line).None? || fn(m, pattern(line).value).Raised?
  }

  /** A line with no effect can be removed from the input without changing
      the result: errors on one line never disturb the others. */
  lemma InertLineDropped<M, Md>(fn: (M, Md) -> Outcome<M>, pattern: string -> Option<Md>, m: M,
                                a: seq<string>, line: string, b: seq<string>)
    requires Inert(fn, pattern, Fold(fn, pattern, m, a), line)
    ensures Fold(fn, pattern, m, a + [line] + b) == Fold(fn, pattern, m, a + b)
  {
    FoldAppend(fn, pattern, m, a + [line], b);
    FoldAppend(fn, pattern, m, a, [line]);
    FoldAppend(fn, pattern, m, a, b);
    assert [line][1..] == [];
  }

  /** Only the matching lines count: dropping every line the pattern rejects
      gives the same metrics. */
  function Matching<Md>(pattern: string -> Option<Md>, lines: seq<string>): (r: seq<string>)
    ensures |r| <= |lines|
    ensures forall i :: 0 <= i < |r| ==> pattern(r[i]).Some?
  {
    if |lines| == 0 then []
    else if pattern(lines[0]).Some? then [lines[0]] + Matching(pattern, lines[1..])
    else Matching(pattern, lines[1..])
  }

  lemma {:induction false} FoldMatching<M, Md>(fn: (M, Md) -> Outcome<M>, pattern: string -> Option<Md>, m: M, lines: seq<string>)
    ensures Fold(fn, pattern, m, Matching(pattern, lines)) == Fold(fn, pattern, m, lines)
  {
    if |lines| > 0 {
      FoldMatching(fn, pattern, Step(fn, pattern, m, lines[0]), lines[1..]);
      if pattern(lines[0]).Some? {
        var r := [lines[0]] + Matching(pattern, lines[1..]);
        assert r[0] == lines[0] && r[1..] == Matching(pattern, lines[1..]);
      }
    }
  }

  /** `call(metrics, lines)`.  The base matcher hands the metrics back
      untouched; a `LinePattern` checks lines, then metrics, for nil, and
      folds its function over the lines its pattern matches. */
  function Call<M, Md>(matcher: Matcher<M, Md>, metrics: Option<M>, lines: Option<seq<string>>): (r: Result<Option<M>, string>)
    ensures matcher.Plain? ==> r == Ok(metrics)
    ensures matcher.LinePattern? && lines.None? ==> r == Err("lines must be provided")
    ensures matcher.LinePattern? && lines.Some? && metrics.None? ==> r == Err("metrics must be provided")
    ensures matcher.LinePattern? && lines.Some? && metrics.Some? ==>
      r == Ok(Some(Fold(matcher.fn, matcher.pattern, metrics.value, Matching(matcher.pattern, lines.value))))
  {
    match matcher
    case Plain(_) => Ok(metrics)
    case LinePattern(fn, pattern) =>
      if lines.None? then Err("lines must be provided")
      else if metrics.None? then Err("metrics must be provided")
      else
        FoldMatching(fn, pattern, metrics.value, lines.value);
        Ok(Some(Fold(fn, pattern, metrics.value, lines.value)))
  }

  /** When no line matches, a `LinePattern` returns the metrics it was given. */
  lemma CallNoMatch<M, Md>(matcher: Matcher<M, Md>, metrics: M, lines: seq<string>)
    requires matcher.LinePattern?
    requires forall i :: 0 <= i < |lines| ==> matcher.pattern(lines[i]).None?
    ensures Call(matcher, Some(metrics), Some(lines)) == Ok(Some(metrics))
  {
    MatchingEmpty(matcher.pattern, lines);
  }

  lemma {:induction false} MatchingEmpty<Md>(pattern: string -> Option<Md>, lines: seq<string>)
    requires forall i :: 0 <= i < |lines| ==> pattern(lines[i]).None?
    ensures Matching(pattern, lines) == []
  {
    if |lines| > 0 {
      MatchingEmpty(pattern, lines[1..]);
    }
  }

  /** The fold written as the loop an imperative caller runs over the lines. */
  method FoldLoop<M, Md>(fn: (M, Md) -> Outcome<M>, pattern: string -> Option<Md>, metrics: M, lines: seq<string>)
    returns (m: M)
    ensures m == Fold(fn, pattern, metrics, lines)
  {
    m := metrics;
    var i := 0;
    while i < |lines|
      invariant 0 <= i <= |lines|
      invariant Fold(fn, pattern, m, lines[i..]) == Fold(fn, pattern, metrics, lines)
    {
      assert lines[i..][1..] == lines[i + 1..];
      m := Step(fn, pattern, m, lines[i]);
      i := i + 1;
    }
    assert lines[i..] == [];
  }
}
