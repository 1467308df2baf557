/** `Solanum::Monitor::Source` of lib/solanum/monitor/source.rb: command
    output, a file or a computation, read by first-match-wins matchers.  The
    command's output and the file's lines are parameters: `fileLines` is
    `None` when the file is not readable. */
module MonitorSource {
  import opened Wrappers
  import opened Symbols
  import Text
  import opened MonitorMatcher

  datatype Kind = Command | File | Compute

  /** The source's value: a command line or path, or a block. */
  datatype Payload<!M> = Text(s: string) | Block(f: M -> Result<M, string>)

  datatype Source<!M> = Source(kind: Kind, value: Payload<M>, matchers: seq<Matcher<M>>)

  /** `instance_exec &@value` on a value that is not a Proc. */
  const NotAProc: string := "wrong argument type String (expected Proc)"
  /** `lines.find` when the file could not be read and `lines` is nil. */
  const NilLines: string := "undefined method `find' for nil"

  /** `Source.new(type, value)`: the type must be one of the three kinds. */
  function New<M>(t: Sym, value: Payload<M>): (r: Result<Source<M>, string>)
    ensures r.Ok? <==> t.name in {"command", "file", "compute"}
    ensures r.Err? ==> r.error == "Unknown source type " + t.name
    ensures r.Ok? ==> r.value.value == value && r.value.matchers == []
    ensures r.Ok? ==> (r.value.kind.Command? <==> t.name == "command") && (r.value.kind.File? <==> t.name == "file")
  {
    if t.name == "command" then Ok(Source(Command, value, []))
    else if t.name == "file" then Ok(Source(File, value, []))
    else if t.name == "compute" then Ok(Source(Compute, value, []))
    else Err("Unknown source type " + t.name)
  }

  /** `source.matchers << matcher`. */
  function AddMatcher<M>(src: Source<M>, mt: Matcher<M>): (r: Source<M>)
    ensures r.matchers == src.matchers + [mt]
    ensures r.kind == src.kind && r.value == src.value
  {
    src.(matchers := src.matchers + [mt])
  }

  /** `lines.find {|line| matcher.match line, metrics }` from line `k` on:
      the position of the first line the pattern matches, with the metrics
      after its calculation; a calculation that raises stops everything. */
  function Find<M>(mt: Matcher<M>, lines: seq<string>, k: nat, m: M, now: real): (r: Result<(Option<nat>, M), string>)
    requires k <= |lines|
    ensures r.Ok? && r.value.0.None? ==> r.value.1 == m && forall j :: k <= j < |lines| ==> mt.pattern(lines[j]).None?
    ensures r.Ok? && r.value.0.Some? ==>
      var i := r.value.0.value;
      k <= i < |lines| && mt.pattern(lines[i]).Some? &&
      (forall j :: k <= j < i ==> mt.pattern(lines[j]).None?) &&
      mt.run(m, mt.pattern(lines[i]).value, now) == Ok(r.value.1)
    ensures r.Err? ==> exists i :: (k <= i < |lines| && mt.pattern(lines[i]).Some? &&
      (forall j :: k <= j < i ==> mt.pattern(lines[j]).None?) &&
      mt.run(m, mt.pattern(lines[i]).value, now) == Err(r.error))
    decreases |lines| - k
  {
    if k == |lines| then Ok((None, m))
    else
      match Match(mt, Some(lines[k]), Some(m), now)
      case Err(e) => Err(e)
      case Ok((true, m2)) => Ok((Some(k), m2))
      case Ok((false, _)) => Find(mt, lines, k + 1, m, now)
  }

  /** `lines.index x`: the first position holding `x`. */
  function Index(lines: seq<string>, x: string): (r: Option<nat>)
    ensures r.None? <==> x !in lines
    ensures r.Some? ==> r.value < |lines| && lines[r.value] == x && forall j :: 0 <= j < r.value ==> lines[j] != x
    decreases |lines|
  {
    if |lines| == 0 then None
    else if lines[0] == x then Some(0)
    else match Index(lines[1..], x)
      case None => None
      case Some(i) => Some(i + 1)
  }

  /** The line found is the first one equal to itself: no earlier line can
      equal it, because an equal line would have matched first. */
  lemma IndexOfFound(p: Pattern, lines: seq<string>, i: nat)
    requires i < |lines| && p(lines[i]).Some?
    requires forall j :: 0 <= j < i ==> p(lines[j]).None?
    ensures Index(lines, lines[i]) == Some(i)
  {
    var x := lines[i];
    assert forall j :: 0 <= j < i ==> lines[j] != x by {
      forall j | 0 <= j < i ensures lines[j] != x {
        assert p(lines[j]).None? && p(x).Some?;
      }
    }
    var r := Index(lines, x);
    assert x in lines;
    assert r.value <= i;
  }

  /** One matcher's turn: it fires on the first remaining line it matches,
      and that line is deleted (`lines.delete_at lines.index matched`). */
  function Step<M>(mt: Matcher<M>, lines: seq<string>, m: M, now: real): (r: Result<(seq<string>, Option<string>, M), string>)
    ensures r.Ok? && r.value.1.None? ==> r.value.0 == lines && r.value.2 == m
    ensures r.Ok? && r.value.1.None? ==> forall j :: 0 <= j < |lines| ==> mt.pattern(lines[j]).None?
    ensures r.Ok? && r.value.1.Some? ==> exists i :: (0 <= i < |lines| && lines[i] == r.value.1.value &&
      mt.pattern(lines[i]).Some? && (forall j :: 0 <= j < i ==> mt.pattern(lines[j]).None?) &&
      r.value.0 == lines[..i] + lines[i + 1..] && mt.run(m, mt.pattern(lines[i]).value, now) == Ok(r.value.2))
    ensures r.Ok? ==> multiset(r.value.0) + Consumed([r.value.1]) == multiset(lines)
  {
    match Find(mt, lines, 0, m, now)
    case Err(e) => Err(e)
    case Ok((None, m2)) => Ok((lines, None, m2))
    case Ok((Some(i), m2)) =>
      IndexOfFound(mt.pattern, lines, i);
      var at := Index(lines, lines[i]).value;
      var rest := lines[..at] + lines[at + 1..];
      assert lines == lines[..i] + [lines[i]] + lines[i + 1..];
      Ok((rest, Some(lines[i]), m2))
  }

  /** The lines the matchers consumed. */
  function Consumed(fired: seq<Option<string>>): (r: multiset<string>)
    ensures |r| <= |fired|
    decreases |fired|
  {
    if |fired| == 0 then multiset{}
    else (if fired[0].Some? then multiset{fired[0].value} else multiset{}) + Consumed(fired[1..])
  }

  lemma {:induction false} ConsumedAppend(a: seq<Option<string>>, b: seq<Option<string>>)
    ensures Consumed(a + b) == Consumed(a) + Consumed(b)
    decreases |a|
  {
    if |a| == 0 {
      assert a + b == b;
    } else {
      assert (a + b)[1..] == a[1..] + b;
      ConsumedAppend(a[1..], b);
    }
  }

  /** `@matchers.each`: each matcher in declaration order takes its turn on
      the lines the earlier ones left.  Gives the lines left over, what each
      matcher consumed, and the metrics. */
  function Run<M>(ms: seq<Matcher<M>>, lines: seq<string>, m: M, now: real): (r: Result<(seq<string>, seq<Option<string>>, M), string>)
    ensures r.Ok? ==> |r.value.1| == |ms|
    ensures r.Ok? ==> forall k :: 0 <= k < |ms| && r.value.1[k].Some? ==> ms[k].pattern(r.value.1[k].value).Some?
    ensures r.Ok? ==> multiset(r.value.0) + Consumed(r.value.1) == multiset(lines)
    decreases |ms|
  {
    if |ms| == 0 then Ok((lines, [], m))
    else
      match Step(ms[0], lines, m, now)
      case Err(e) => Err(e)
      case Ok((lines2, hit, m2)) =>
        match Run(ms[1..], lines2, m2, now)
        case Err(e) => Err(e)
        case Ok((rest, fired, m3)) =>
          ConsumedAppend([hit], fired);
          StepHitMatches(ms[0], lines, m, now);
          FiredMatch(ms, hit, fired);
          Ok((rest, [hit] + fired, m3))
  }

  /** A line a step consumed matches the step's pattern. */
  lemma StepHitMatches<M>(mt: Matcher<M>, lines: seq<string>, m: M, now: real)
    ensures var r := Step(mt, lines, m, now);
      r.Ok? && r.value.1.Some? ==> mt.pattern(r.value.1.value).Some?
  {
  }

  /** Matching the first matcher's line and the others' lines in turn is
      matching every matcher's line. */
  lemma FiredMatch<M>(ms: seq<Matcher<M>>, hit: Option<string>, fired: seq<Option<string>>)
    requires |ms| > 0 && |fired| == |ms| - 1
    requires hit.Some? ==> ms[0].pattern(hit.value).Some?
    requires forall k :: 0 <= k < |ms| - 1 && fired[k].Some? ==> ms[1..][k].pattern(fired[k].value).Some?
    ensures forall k :: 0 <= k < |ms| && ([hit] + fired)[k].Some? ==> ms[k].pattern(([hit] + fired)[k].value).Some?
  {
    forall k | 0 <= k < |ms| && ([hit] + fired)[k].Some?
      ensures ms[k].pattern(([hit] + fired)[k].value).Some?
    {
      if k > 0 {
        assert ([hit] + fired)[k] == fired[k - 1];
        assert ms[1..][k - 1] == ms[k];
      }
    }
  }

  /** `collect(metrics)`. */
  function Collect<M>(src: Source<M>, metrics: Option<M>, output: string, fileLines: Option<seq<string>>, now: real): (r: Result<M, string>)
    ensures metrics.None? ==> r == Err(NoMetrics)
    ensures metrics.Some? && src.kind.Compute? ==>
      r == (if src.value.Block? then src.value.f(metrics.value) else Err(NotAProc))
    ensures metrics.Some? && src.kind.Command? ==>
      r == RunMetrics(src.matchers, Text.RubySplit(output, '\n'), metrics.value, now)
    ensures metrics.Some? && src.kind.File? && fileLines.Some? ==>
      r == RunMetrics(src.matchers, fileLines.value, metrics.value, now)
    ensures metrics.Some? && src.kind.File? && fileLines.None? ==>
      r == (if |src.matchers| == 0 then Ok(metrics.value) else Err(NilLines))
  {
    if metrics.None? then Err(NoMetrics)
    else
      var m := metrics.value;
      match src.kind
      case Compute => if src.value.Block? then src.value.f(m) else Err(NotAProc)
      case Command => RunMetrics(src.matchers, Text.RubySplit(output, '\n'), m, now)
      case File =>
        match fileLines
        case Some(ls) => RunMetrics(src.matchers, ls, m, now)
        case None => if |src.matchers| == 0 then Ok(m) else Err(NilLines)
  }

  /** The metrics after the matchers have run. */
  function RunMetrics<M>(ms: seq<Matcher<M>>, lines: seq<string>, m: M, now: real): (r: Result<M, string>)
    ensures r.Ok? <==> Run(ms, lines, m, now).Ok?
    ensures r.Ok? ==> r.value == Run(ms, lines, m, now).value.2
  {
    match Run(ms, lines, m, now)
    case Ok((_, _, m2)) => Ok(m2)
    case Err(e) => Err(e)
  }

  /** A computed source ignores its matchers and any input. */
  lemma ComputeIgnoresInput<M>(src: Source<M>, mt: Matcher<M>, m: M, o1: string, o2: string, f1: Option<seq<string>>, f2: Option<seq<string>>, now: real)
    requires src.kind.Compute?
    ensures Collect(AddMatcher(src, mt), Some(m), o1, f1, now) == Collect(src, Some(m), o2, f2, now)
  {
  }

  /** Two matchers whose patterns match the same single line: only the first
      fires, the second finds nothing left. */
  lemma FirstMatchWins<M>(a: Matcher<M>, b: Matcher<M>, line: string, m: M, now: real)
    requires a.pattern(line).Some? && b.pattern(line).Some?
    requires a.run(m, a.pattern(line).value, now).Ok?
    ensures Run([a, b], [line], m, now) == Ok(([], [Some(line), None], a.run(m, a.pattern(line).value, now).value))
  {
    var m2 := a.run(m, a.pattern(line).value, now).value;
    assert Find(a, [line], 0, m, now) == Ok((Some(0), m2));
    assert Step(a, [line], m, now) == Ok(([], Some(line), m2));
    var ms: seq<Matcher<M>> := [a, b];
    assert ms[1..] == [b];
    var empty: seq<string> := [];
    assert Find(b, empty, 0, m2, now) == Ok((None, m2));
    assert Step(b, empty, m2, now) == Ok((empty, None, m2));
    var bs: seq<Matcher<M>> := [b];
    var noMatchers: seq<Matcher<M>> := [];
    assert bs[1..] == noMatchers;
    assert Run(noMatchers, empty, m2, now) == Ok((empty, [], m2));
    var none: seq<Option<string>> := [None];
    assert none + [] == none;
    assert Run(bs, empty, m2, now) == Ok((empty, none, m2));
    var hit: seq<Option<string>> := [Some(line)];
    assert hit + none == [Some(line), None];
  }
}
