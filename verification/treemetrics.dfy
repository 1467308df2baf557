/** `Solanum::Metrics` of solanum/metrics.rb: a tree of categories whose
    leaves hold record histories.  `Time.now` is the parameter `now`. */
module TreeMetrics {
  import opened Wrappers
  import opened Symbols
  import Text
  import MetricRecord
  import opened MetricTree

  datatype Metrics = Metrics(root: seq<Child>)

  /** `Metrics.new`: an empty root category. */
  function New(): (m: Metrics)
    ensures forall p :: AtPath(m.root, p).None?
  {
    Metrics([])
  }

  /** `path.strip.split('.').map(&:intern)`. */
  function ParsePath(path: string): (r: seq<Sym>)
    ensures |r| == |Text.RubySplit(Text.Strip(path), '.')|
    ensures forall i :: 0 <= i < |r| ==> r[i] == Sym(Text.RubySplit(Text.Strip(path), '.')[i])
  {
    var pieces := Text.RubySplit(Text.Strip(path), '.');
    seq(|pieces|, i requires 0 <= i < |pieces| => Sym(pieces[i]))
  }

  /** A name piece of a dotted path: non-empty, no dot, no white space. */
  predicate IsPiece(p: string) {
    Text.IsWord(p) && '.' !in p
  }

  /** Parsing a dotted path built from pieces gives the pieces back, with any
      white space around it ignored. */
  lemma ParseJoined(names: seq<string>, pre: string, post: string)
    requires |names| > 0 && forall i :: 0 <= i < |names| ==> IsPiece(names[i])
    requires forall i :: 0 <= i < |pre| ==> Text.IsSpace(pre[i])
    requires forall i :: 0 <= i < |post| ==> Text.IsSpace(post[i])
    ensures ParsePath(pre + Text.Join(names, '.') + post) == seq(|names|, i requires 0 <= i < |names| => Sym(names[i]))
  {
    var body := Text.Join(names, '.');
    StripJoined(names, pre, post);
    SplitJoined(names);
    var r := ParsePath(pre + body + post);
    assert |r| == |names|;
    assert forall i :: 0 <= i < |names| ==> r[i] == Sym(names[i]);
  }

  lemma StripJoined(names: seq<string>, pre: string, post: string)
    requires |names| > 0 && forall i :: 0 <= i < |names| ==> IsPiece(names[i])
    requires forall i :: 0 <= i < |pre| ==> Text.IsSpace(pre[i])
    requires forall i :: 0 <= i < |post| ==> Text.IsSpace(post[i])
    ensures Text.Strip(pre + Text.Join(names, '.') + post) == Text.Join(names, '.')
  {
    JoinEnds(names);
    Text.StripPadded(pre, Text.Join(names, '.'), post);
  }

  lemma SplitJoined(names: seq<string>)
    requires |names| > 0 && forall i :: 0 <= i < |names| ==> IsPiece(names[i])
    ensures Text.RubySplit(Text.Join(names, '.'), '.') == names
  {
    JoinEnds(names);
    Text.RubySplitKeepsAll(Text.Join(names, '.'), '.');
    Text.SplitOnJoin(names, '.');
  }

  /** A join of pieces starts and ends with a piece character. */
  lemma {:induction false} JoinEnds(names: seq<string>)
    requires |names| > 0 && forall i :: 0 <= i < |names| ==> IsPiece(names[i])
    ensures var s := Text.Join(names, '.');
      |s| > 0 && !Text.IsSpace(s[0]) && !Text.IsSpace(s[|s| - 1]) && s[|s| - 1] != '.'
    decreases |names|
  {
    var s := Text.Join(names, '.');
    var w := names[|names| - 1];
    if |names| == 1 {
      assert s == w;
    } else {
      Text.JoinPrefix(names, |names| - 2, '.');
      assert names[|names| - 1..] == [w];
      assert Text.Join([w], '.') == w;
      var front := Text.Join(names[..|names| - 1], '.');
      assert s == front + ['.'] + w;
      JoinEnds(names[..|names| - 1]);
      assert s[0] == front[0];
      assert s[|s| - 1] == w[|w| - 1];
    }
  }

  /** The history at a path: the records of a Metric there, none otherwise. */
  function History(cs: seq<Child>, p: seq<Sym>): seq<MetricRecord.Record> {
    var n := AtPath(cs, p);
    if n.Some? && n.value.Leaf? then n.value.records else []
  }

  /** Nothing, or a Metric, sits at the path: `record` can write there. */
  predicate Writable(cs: seq<Child>, p: seq<Sym>) {
    AtPath(cs, p).None? || AtPath(cs, p).value.Leaf?
  }

  const RecordsKey: Sym := Sym("records")
  const AppendKey: Sym := Sym("<<")

  /** `metric.records << rec` on the resolved node.  On a Category,
      `records` and `<<` go through `method_missing`: the call raises unless
      the category has a `records` Category that itself has a `<<` child, in
      which case nothing is stored. */
  function Append(cs: seq<Child>, p: seq<Sym>, n: Node, rec: MetricRecord.Record): (r: Result<seq<Child>, string>)
    requires AtPath(cs, p) == Some(n)
    ensures n.Leaf? ==> r == Ok(Update(cs, p, Leaf(n.records + [rec])))
    ensures n.Category? ==> (r.Ok? <==>
      var rs := Lookup(n.children, RecordsKey);
      rs.Some? && rs.value.Category? && AppendKey in Keys(rs.value.children))
    ensures n.Category? && r.Ok? ==> r.value == cs
  {
    match n
    case Leaf(rs) => Ok(Update(cs, p, Leaf(rs + [rec])))
    case Category(ch) =>
      match Lookup(ch, RecordsKey)
      case None => Err(NoElement(RecordsKey))
      case Some(Leaf(_)) => Err(NoMethod("<<"))
      case Some(Category(d)) => if AppendKey in Keys(d) then Ok(cs) else Err(NoElement(AppendKey))
  }

  /** Resolving then replacing the Metric found leaves every path that is
      not a prefix of the resolved one as it was. */
  lemma ResolvedFrame(cs0: seq<Child>, p: seq<Sym>, cs: seq<Child>, n: Node, n2: Node)
    requires MetricTree.Resolve(cs0, p) == Ok((cs, n)) && n.Leaf? && n2.Leaf?
    ensures forall q :: !IsPrefix(q, p) ==> AtPath(Update(cs, p, n2), q) == AtPath(cs0, q)
  {
    forall q | !IsPrefix(q, p) ensures AtPath(Update(cs, p, n2), q) == AtPath(cs0, q) {
      ResolveFrame(cs0, p, q);
      UpdateFrame(cs, p, n2, q);
    }
  }

  /** The frame of a successful `Append`. */
  lemma AppendFrame(cs0: seq<Child>, p: seq<Sym>, cs: seq<Child>, n: Node, rec: MetricRecord.Record, cs2: seq<Child>)
    requires MetricTree.Resolve(cs0, p) == Ok((cs, n))
    requires Append(cs, p, n, rec) == Ok(cs2)
    ensures forall q :: !IsPrefix(q, p) ==> AtPath(cs2, q) == AtPath(cs0, q)
  {
    if n.Leaf? {
      ResolvedFrame(cs0, p, cs, n, Leaf(n.records + [rec]));
    } else {
      forall q | !IsPrefix(q, p) ensures AtPath(cs2, q) == AtPath(cs0, q) {
        ResolveFrame(cs0, p, q);
      }
    }
  }

  /** `record` once the path is parsed: a nil value is ignored; otherwise
      one record is appended to the resolved Metric's history. */
  function RecordAt(cs0: seq<Child>, p: seq<Sym>, value: MetricRecord.Value, unit: UnitArg, now: real): (r: Result<seq<Child>, string>)
    ensures value.Nil? ==> r == Ok(cs0)
    ensures !value.Nil? && Writable(cs0, p) && MetricTree.Resolve(cs0, p).Ok? ==>
      r.Ok? && AtPath(r.value, p) == Some(Leaf(History(cs0, p) + [MetricRecord.New(now, value, unit)]))
    ensures r.Ok? && !value.Nil? ==> forall q :: !IsPrefix(q, p) ==> AtPath(r.value, q) == AtPath(cs0, q)
    ensures MetricTree.Resolve(cs0, p).Err? && !value.Nil? ==> r == Err(MetricTree.Resolve(cs0, p).error)
  {
    if value.Nil? then Ok(cs0)
    else
      match MetricTree.Resolve(cs0, p)
      case Err(e) => Err(e)
      case Ok((cs, n)) =>
        var rec := MetricRecord.New(now, value, unit);
        match Append(cs, p, n, rec)
        case Err(e) => Err(e)
        case Ok(cs2) =>
          AppendFrame(cs0, p, cs, n, rec, cs2);
          Ok(cs2)
  }

  /** `record(path, value, unit: unit)`. */
  function Record(m: Metrics, path: string, value: MetricRecord.Value, unit: UnitArg, now: real): (r: Result<Metrics, string>)
    ensures r.Ok? <==> RecordAt(m.root, ParsePath(path), value, unit, now).Ok?
    ensures r.Ok? ==> r.value.root == RecordAt(m.root, ParsePath(path), value, unit, now).value
    ensures r.Err? ==> r.error == RecordAt(m.root, ParsePath(path), value, unit, now).error
    ensures value.Nil? ==> r == Ok(m)
    ensures var p := ParsePath(path);
      !value.Nil? && Writable(m.root, p) && MetricTree.Resolve(m.root, p).Ok? ==>
        r.Ok? && AtPath(r.value.root, p) == Some(Leaf(History(m.root, p) + [MetricRecord.New(now, value, unit)]))
  {
    match RecordAt(m.root, ParsePath(path), value, unit, now)
    case Ok(cs) => Ok(Metrics(cs))
    case Err(e) => Err(e)
  }

  /** `measure` once the path is parsed: a nil value is ignored; otherwise
      the resolved Metric's history is replaced by the one new record.  On a
      Category, `records.clear` then `records <<` go through
      `method_missing` and always raise. */
  function MeasureAt(cs0: seq<Child>, p: seq<Sym>, value: MetricRecord.Value, unit: UnitArg, now: real): (r: Result<seq<Child>, string>)
    ensures value.Nil? ==> r == Ok(cs0)
    ensures !value.Nil? && Writable(cs0, p) && MetricTree.Resolve(cs0, p).Ok? ==>
      r.Ok? && AtPath(r.value, p) == Some(Leaf([MetricRecord.New(now, value, unit)]))
    ensures r.Ok? && !value.Nil? ==> forall q :: !IsPrefix(q, p) ==> AtPath(r.value, q) == AtPath(cs0, q)
    ensures !value.Nil? && !Writable(cs0, p) ==> r.Err?
  {
    if value.Nil? then Ok(cs0)
    else
      match MetricTree.Resolve(cs0, p)
      case Err(e) => Err(e)
      case Ok((cs, n)) =>
        var rec := MetricRecord.New(now, value, unit);
        match n
        case Leaf(_) =>
          ResolvedFrame(cs0, p, cs, n, Leaf([rec]));
          Ok(Update(cs, p, Leaf([rec])))
        case Category(ch) =>
          match Lookup(ch, RecordsKey)
          case None => Err(NoElement(RecordsKey))
          case Some(Leaf(_)) => Err(NoMethod("clear"))
          case Some(Category(_)) => Err(NoElement(AppendKey))
  }

  /** `measure(path, value, unit: unit)`. */
  function Measure(m: Metrics, path: string, value: MetricRecord.Value, unit: UnitArg, now: real): (r: Result<Metrics, string>)
    ensures r.Ok? <==> MeasureAt(m.root, ParsePath(path), value, unit, now).Ok?
    ensures r.Ok? ==> r.value.root == MeasureAt(m.root, ParsePath(path), value, unit, now).value
    ensures r.Err? ==> r.error == MeasureAt(m.root, ParsePath(path), value, unit, now).error
    ensures value.Nil? ==> r == Ok(m)
    ensures var p := ParsePath(path);
      !value.Nil? && Writable(m.root, p) && MetricTree.Resolve(m.root, p).Ok? ==>
        r.Ok? && AtPath(r.value.root, p) == Some(Leaf([MetricRecord.New(now, value, unit)]))
  {
    match MeasureAt(m.root, ParsePath(path), value, unit, now)
    case Ok(cs) => Ok(Metrics(cs))
    case Err(e) => Err(e)
  }

  /** Recording twice at one path keeps both records, oldest first. */
  lemma RecordTwice(cs: seq<Child>, p: seq<Sym>, v1: MetricRecord.Value, v2: MetricRecord.Value, unit: UnitArg, t1: real, t2: real)
    requires !v1.Nil? && !v2.Nil?
    requires Writable(cs, p) && MetricTree.Resolve(cs, p).Ok?
    ensures RecordAt(cs, p, v1, unit, t1).Ok?
    ensures RecordAt(RecordAt(cs, p, v1, unit, t1).value, p, v2, unit, t2).Ok?
    ensures AtPath(RecordAt(RecordAt(cs, p, v1, unit, t1).value, p, v2, unit, t2).value, p) ==
      Some(Leaf(History(cs, p) + [MetricRecord.New(t1, v1, unit), MetricRecord.New(t2, v2, unit)]))
  {
    var cs1 := RecordAt(cs, p, v1, unit, t1).value;
    var n1 := AtPath(cs1, p).value;
    assert MetricTree.Resolve(cs1, p) == Ok((cs1, n1));
    var r1 := MetricRecord.New(t1, v1, unit);
    var r2 := MetricRecord.New(t2, v2, unit);
    assert History(cs1, p) == History(cs, p) + [r1];
    assert History(cs1, p) + [r2] == History(cs, p) + [r1, r2];
  }

  /** After `measure`, recording appends to the one measured record. */
  lemma MeasureThenRecord(cs: seq<Child>, p: seq<Sym>, v1: MetricRecord.Value, v2: MetricRecord.Value, unit: UnitArg, t1: real, t2: real)
    requires !v1.Nil? && !v2.Nil?
    requires Writable(cs, p) && MetricTree.Resolve(cs, p).Ok?
    ensures MeasureAt(cs, p, v1, unit, t1).Ok?
    ensures RecordAt(MeasureAt(cs, p, v1, unit, t1).value, p, v2, unit, t2).Ok?
    ensures AtPath(RecordAt(MeasureAt(cs, p, v1, unit, t1).value, p, v2, unit, t2).value, p) ==
      Some(Leaf([MetricRecord.New(t1, v1, unit), MetricRecord.New(t2, v2, unit)]))
  {
    var r1 := MetricRecord.New(t1, v1, unit);
    var r2 := MetricRecord.New(t2, v2, unit);
    var cs1 := MeasureAt(cs, p, v1, unit, t1).value;
    assert AtPath(cs1, p) == Some(Leaf([r1]));
    assert Writable(cs1, p) && History(cs1, p) == [r1];
    assert MetricTree.Resolve(cs1, p) == Ok((cs1, Leaf([r1])));
    assert History(cs1, p) + [r2] == [r1, r2];
  }

  /** A path that runs through a Metric cannot be recorded at. */
  lemma RecordThroughMetric(m: Metrics, path: string, value: MetricRecord.Value, unit: UnitArg, now: real)
    requires !value.Nil?
    requires BlockedByLeaf(m.root, ParsePath(path))
    ensures Record(m, path, value, unit, now) == Err(NoResolveError)
  {
    ResolveFails(m.root, ParsePath(path));
    ResolveBlockedError(m.root, ParsePath(path));
  }

  /** The error of a blocked path is the NoMethodError for `resolve`. */
  lemma {:induction false} ResolveBlockedError(cs: seq<Child>, path: seq<Sym>)
    requires |path| > 0
    requires MetricTree.Resolve(cs, path).Err?
    ensures MetricTree.Resolve(cs, path).error == NoResolveError
    decreases |path|
  {
    if |path| > 1 {
      var existing := Lookup(cs, path[0]);
      if !(existing.Some? && existing.value.Leaf?) {
        var sub := if existing.Some? then existing.value.children else [];
        ResolveBlockedError(sub, path[1..]);
      }
    }
  }

  /** A blank path cannot be resolved. */
  lemma BlankPath(m: Metrics, value: MetricRecord.Value, unit: UnitArg, now: real)
    requires !value.Nil?
    ensures Record(m, "  ", value, unit, now) == Err(EmptyPathError)
  {
    assert Text.LeadSpaces("  ") == 2 by {
      assert Text.LeadSpaces("  "[1..]) == 1 by { assert "  "[1..][1..] == ""; }
    }
    assert Text.Strip("  ") == "";
    assert Text.SplitOn("", '.') == [""];
    assert ParsePath("  ") == [];
  }
}
