/** The `thresholds` helper of lib/solanum/dsl.rb: it validates an alternating
    list of numeric limits and state values and returns a classifier that
    walks the pairs in the order they were declared. */
module Thresholds {
  import opened Wrappers

  /** An argument as `thresholds` sees it: only whether it is numeric, a
      String, a Symbol, `nil` or anything else matters. */
  datatype Arg = Nil | Num(n: real) | Str(s: string) | Sym(name: string) | Other

  /** One `limit, state` pair, after validation. */
  datatype Pair = Pair(limit: real, state: Arg)

  /** The lambda `thresholds` returns: a default state and the pairs in order. */
  datatype Classifier = Classifier(default: Arg, pairs: seq<Pair>)

  /** The three failures `thresholds` raises while checking its arguments. */
  datatype BuildError =
    | Unpaired            // "Thresholds must be paired with state values"
    | LimitNotNumeric(limit: Arg)   // "Limits must be numeric: #{limit}"
    | StateNotName(state: Arg)      // "State values must be strings or symbols: #{state}"

  predicate IsStateName(a: Arg) { a.Str? || a.Sym? }

  /** A pair list that passes the checks of `thresholds`: numeric limits
      alternating with state names, as many states as limits. */
  predicate ValidPairArgs(args: seq<Arg>)
    ensures ValidPairArgs(args) ==> |args| % 2 == 0
  {
    if |args| == 0 then true
    else |args| >= 2 && args[0].Num? && IsStateName(args[1]) && ValidPairArgs(args[2..])
  }

  /** `args.each_slice(2)` with the checks: the first bad pair decides the
      error; on success the pairs re-flatten to exactly the arguments. */
  function CheckPairs(args: seq<Arg>): (r: Result<seq<Pair>, BuildError>)
    requires |args| % 2 == 0
    ensures r.Ok? <==> ValidPairArgs(args)
    ensures r.Ok? ==> Flatten(r.value) == args
    ensures r.Err? ==> !r.error.Unpaired?
  {
    if |args| == 0 then Ok([])
    else if !args[0].Num? then Err(LimitNotNumeric(args[0]))
    else if !IsStateName(args[1]) then Err(StateNotName(args[1]))
    else
      match CheckPairs(args[2..])
      case Err(e) => Err(e)
      case Ok(pairs) =>
        var r := [Pair(args[0].n, args[1])] + pairs;
        assert r[1..] == pairs;
        Ok(r)
  }

  /** The default state: a leading non-numeric argument (nil when the list is
      empty), otherwise nil; and the arguments left to pair up. */
  function SplitDefault(args: seq<Arg>): (Arg, seq<Arg>) {
    if |args| > 0 && args[0].Num? then (Nil, args)
    else if |args| == 0 then (Nil, [])
    else (args[0], args[1..])
  }

  /** `thresholds(*args)`: the classifier, or the error raised while checking
      the arguments, before any classifier exists. */
  function Build(args: seq<Arg>): (r: Result<Classifier, BuildError>)
    ensures var (dflt, rest) := SplitDefault(args);
      && (|rest| % 2 != 0 <==> r == Err(Unpaired))
      && (r.Ok? <==> ValidPairArgs(rest))
      && (r.Ok? ==> r.value.default == dflt && |r.value.pairs| == |rest| / 2)
    ensures |args| > 0 && !args[0].Num? && r.Ok? ==> r.value.default == args[0]
    ensures (|args| == 0 || args[0].Num?) && r.Ok? ==> r.value.default == Nil
    ensures r.Ok? ==> Flatten(r.value.pairs) == SplitDefault(args).1
  {
    var (dflt, rest) := SplitDefault(args);
    if |rest| % 2 != 0 then
      Err(Unpaired)
    else
      match CheckPairs(rest)
      case Ok(pairs) => Ok(Classifier(dflt, pairs))
      case Err(e) => Err(e)
  }

  /** The argument list that declares a classifier: its default, then each
      limit followed by its state. */
  function Declare(c: Classifier): seq<Arg> {
    [c.default] + Flatten(c.pairs)
  }

  /** The pairs written back as `limit, state, limit, state, ...`. */
  function Flatten(pairs: seq<Pair>): (r: seq<Arg>)
    ensures |r| == 2 * |pairs|
  {
    if |pairs| == 0 then []
    else [Num(pairs[0].limit), pairs[0].state] + Flatten(pairs[1..])
  }

  /** Flattened pairs pass the checks exactly when every state is a name. */
  lemma {:induction false} FlattenValid(pairs: seq<Pair>)
    requires forall i :: 0 <= i < |pairs| ==> IsStateName(pairs[i].state)
    ensures ValidPairArgs(Flatten(pairs))
    ensures CheckPairs(Flatten(pairs)) == Ok(pairs)
  {
    if |pairs| > 0 {
      var f := Flatten(pairs);
      assert f[2..] == Flatten(pairs[1..]);
      FlattenValid(pairs[1..]);
      assert [Pair(f[0].n, f[1])] + pairs[1..] == pairs;
    }
  }

  /** The form without a default (a limit first) builds a nil default and
      exactly the declared pairs. */
  lemma BuildWithoutDefault(pairs: seq<Pair>)
    requires forall i :: 0 <= i < |pairs| ==> IsStateName(pairs[i].state)
    ensures Build(Flatten(pairs)) == Ok(Classifier(Nil, pairs))
  {
    FlattenValid(pairs);
  }

  /** A classifier that `thresholds` can produce. */
  predicate Declarable(c: Classifier) {
    !c.default.Num? && forall i :: 0 <= i < |c.pairs| ==> IsStateName(c.pairs[i].state)
  }

  /** Declaring a classifier and building it again gives the same classifier. */
  lemma BuildDeclare(c: Classifier)
    requires Declarable(c)
    ensures Build(Declare(c)) == Ok(c)
  {
    var args := Declare(c);
    assert args[1..] == Flatten(c.pairs);
    assert SplitDefault(args) == (c.default, Flatten(c.pairs));
    FlattenValid(c.pairs);
  }

  // ---------------------------------------------------------------------------
  // The returned lambda

  /** The loop of the lambda: keep the state of each pair whose limit is below
      `v`, stop at the first pair whose limit is not. */
  function Scan(pairs: seq<Pair>, v: real, state: Arg): Arg {
    if |pairs| == 0 then state
    else if pairs[0].limit < v then Scan(pairs[1..], v, pairs[0].state)
    else state
  }

  /** `k` leading pairs have limits below `v`, and the next one (if any) does not. */
  predicate LongestBelow(pairs: seq<Pair>, v: real, k: nat) {
    k <= |pairs| &&
    (forall i :: 0 <= i < k ==> pairs[i].limit < v) &&
    (k < |pairs| ==> v <= pairs[k].limit)
  }

  lemma {:induction false} ScanPrefix(pairs: seq<Pair>, v: real, state: Arg, k: nat)
    requires LongestBelow(pairs, v, k)
    ensures Scan(pairs, v, state) == if k == 0 then state else pairs[k - 1].state
  {
    if k > 0 {
      assert LongestBelow(pairs[1..], v, k - 1);
      ScanPrefix(pairs[1..], v, pairs[0].state, k - 1);
    }
  }

  /** Number of leading pairs whose limits lie below `v`. */
  function CountBelow(pairs: seq<Pair>, v: real): (k: nat)
    ensures LongestBelow(pairs, v, k)
  {
    if |pairs| == 0 || v <= pairs[0].limit then 0
    else 1 + CountBelow(pairs[1..], v)
  }

  /** Calling the classifier: the state of the last pair of the longest prefix
      whose limits all lie strictly below `v`; the default when that prefix is
      empty (no pairs, or `v` at most the first limit).  Pairs are taken in
      declaration order and never sorted. */
  function Classify(c: Classifier, v: real): (r: Arg)
    ensures forall k: nat :: LongestBelow(c.pairs, v, k) ==>
      r == if k == 0 then c.default else c.pairs[k - 1].state
  {
    forall k: nat | LongestBelow(c.pairs, v, k)
      ensures Scan(c.pairs, v, c.default) == if k == 0 then c.default else c.pairs[k - 1].state
    {
      ScanPrefix(c.pairs, v, c.default, k);
    }
    Scan(c.pairs, v, c.default)
  }

  /** A value equal to a limit does not take that limit's state: the
      comparison is strict. */
  lemma EqualToLimit(c: Classifier, i: nat)
    requires i < |c.pairs|
    requires forall j :: 0 <= j < i ==> c.pairs[j].limit < c.pairs[i].limit
    ensures Classify(c, c.pairs[i].limit) == if i == 0 then c.default else c.pairs[i - 1].state
  {
    assert LongestBelow(c.pairs, c.pairs[i].limit, i);
  }

  /** The usage example of the helper: `thresholds(:ok, 55, :warning, 65, :critical)`. */
  lemma UsageExample(v: real)
    ensures Build([Sym("ok"), Num(55.0), Sym("warning"), Num(65.0), Sym("critical")]).Ok?
    ensures var c := Build([Sym("ok"), Num(55.0), Sym("warning"), Num(65.0), Sym("critical")]).value;
      && (v <= 55.0 ==> Classify(c, v) == Sym("ok"))
      && (55.0 < v <= 65.0 ==> Classify(c, v) == Sym("warning"))
      && (65.0 < v ==> Classify(c, v) == Sym("critical"))
  {
    var c := Classifier(Sym("ok"), [Pair(55.0, Sym("warning")), Pair(65.0, Sym("critical"))]);
    BuildDeclare(c);
    assert Declare(c) == [Sym("ok"), Num(55.0), Sym("warning"), Num(65.0), Sym("critical")];
    if v <= 55.0 {
      assert LongestBelow(c.pairs, v, 0);
    } else if v <= 65.0 {
      assert LongestBelow(c.pairs, v, 1);
    } else {
      assert LongestBelow(c.pairs, v, 2);
    }
  }

  /** The availability example: `thresholds(0.00, :critical, 0.10, :warning, 0.25, :ok)`
      has no default state, so values at or below 0 classify as nil. */
  lemma AvailabilityExample(v: real)
    ensures Build([Num(0.0), Sym("critical"), Num(0.1), Sym("warning"), Num(0.25), Sym("ok")]).Ok?
    ensures var c := Build([Num(0.0), Sym("critical"), Num(0.1), Sym("warning"), Num(0.25), Sym("ok")]).value;
      && (v <= 0.0 ==> Classify(c, v) == Nil)
      && (0.0 < v <= 0.1 ==> Classify(c, v) == Sym("critical"))
      && (0.1 < v <= 0.25 ==> Classify(c, v) == Sym("warning"))
      && (0.25 < v ==> Classify(c, v) == Sym("ok"))
  {
    var args := [Num(0.0), Sym("critical"), Num(0.1), Sym("warning"), Num(0.25), Sym("ok")];
    var pairs := [Pair(0.0, Sym("critical")), Pair(0.1, Sym("warning")), Pair(0.25, Sym("ok"))];
    assert SplitDefault(args) == (Nil, args);
    FlattenValid(pairs);
    assert Flatten(pairs) == args;
    var c := Classifier(Nil, pairs);
    assert Build(args) == Ok(c);
    if v <= 0.0 {
      assert LongestBelow(pairs, v, 0);
    } else if v <= 0.1 {
      assert LongestBelow(pairs, v, 1);
    } else if v <= 0.25 {
      assert LongestBelow(pairs, v, 2);
    } else {
      assert LongestBelow(pairs, v, 3);
    }
  }
}
