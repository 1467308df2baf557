/** `Solanum::Metrics` of lib/solanum/metrics.rb: a flat hash from dotted
    metric names to metrics.  A name is either a metric or (through its dotted
    extensions) a category, never both: no stored name is a dotted prefix of
    another. */
module FlatMetrics {
  import opened Wrappers
  import opened Symbols
  import Text
  import FlatMetric

  /** The metrics hash. */
  datatype Store = Store(metrics: map<string, FlatMetric.Metric>)

  /** `\w`: an ASCII letter, digit or underscore. */
  predicate IsWordChar(c: char) {
    'a' <= c <= 'z' || 'A' <= c <= 'Z' || '0' <= c <= '9' || c == '_'
  }

  /** A whole string matching `\w[\w.]+\w`. */
  predicate NameShape(s: string) {
    |s| >= 3 && IsWordChar(s[0]) && IsWordChar(s[|s| - 1]) &&
    forall i :: 0 < i < |s| - 1 ==> IsWordChar(s[i]) || s[i] == '.'
  }

  /** `name =~ /^\w[\w.]+\w$/` as written: `^` and `$` anchor at line
      boundaries, so the name passes when any one of its lines has the shape. */
  predicate ValidNameAsWritten(name: string) {
    exists i :: 0 <= i < |Text.SplitOn(name, '\n')| && NameShape(Text.SplitOn(name, '\n')[i])
  }

  /** The check as evidently intended: the whole name has the shape. */
  predicate ValidName(name: string) {
    NameShape(name)
  }

  /** Every intended name passes the check as written. */
  lemma ValidNameAccepted(name: string)
    requires ValidName(name)
    ensures ValidNameAsWritten(name)
  {
    assert '\n' !in name by {
      forall i | 0 <= i < |name| ensures name[i] != '\n' {
        if 0 < i < |name| - 1 {}
      }
    }
    Text.SplitOnJoin([name], '\n');
  }

  /** `m[0..name.length] == name + '.'`: `m` is a metric inside category `name`. */
  predicate DotPrefix(name: string, m: string) {
    |name| < |m| && m[..|name| + 1] == name + "."
  }

  /** The store invariant: no stored name lies inside another stored name. */
  predicate NoNesting(s: Store) {
    forall a, b :: a in s.metrics && b in s.metrics ==> !DotPrefix(a, b)
  }

  /** `(0..path.length-2).map { |i| path[0..i].join('.') }` with
      `path = name.split('.')`: the names of the enclosing categories,
      shortest first. */
  function Ancestors(name: string): (r: seq<string>)
  {
    var path := Text.RubySplit(name, '.');
    if |path| < 2 then []
    else seq(|path| - 1, i requires 0 <= i < |path| - 1 => Text.Join(path[..i + 1], '.'))
  }

  /** Each enclosing category is a dotted prefix of the name. */
  lemma AncestorIsDotPrefix(name: string, i: nat)
    requires |name| > 0 && name[|name| - 1] != '.'
    requires i < |Ancestors(name)|
    ensures DotPrefix(Ancestors(name)[i], name)
  {
    var path := Text.SplitOn(name, '.');
    Text.RubySplitKeepsAll(name, '.');
    Text.JoinSplitOn(name, '.');
    var a := Ancestors(name)[i];
    assert a == Text.Join(path[..i + 1], '.');
    Text.JoinPrefix(path, i, '.');
    var tail := Text.Join(path[i + 1..], '.');
    assert name == a + ['.'] + tail;
    assert name[..|a| + 1] == a + ".";
  }

  /** Each dotted prefix of the name is an enclosing category. */
  lemma DotPrefixIsAncestor(name: string, a: string)
    requires |name| > 0 && name[|name| - 1] != '.'
    requires DotPrefix(a, name)
    ensures a in Ancestors(name)
  {
    var path := Text.SplitOn(name, '.');
    Text.RubySplitKeepsAll(name, '.');
    var rest := name[|a| + 1..];
    assert name == a + ['.'] + rest;
    Text.SplitOnAppend(a, rest, '.');
    var left := Text.SplitOn(a, '.');
    assert path == left + Text.SplitOn(rest, '.');
    var i := |left| - 1;
    assert path[..i + 1] == left;
    Text.JoinSplitOn(a, '.');
    assert Ancestors(name)[i] == a;
  }

  /** For a name that does not end in a dot, the enclosing categories are
      exactly its dotted prefixes. */
  lemma AncestorsAreDotPrefixes(name: string, a: string)
    requires |name| > 0 && name[|name| - 1] != '.'
    ensures a in Ancestors(name) <==> DotPrefix(a, name)
  {
    if a in Ancestors(name) {
      var i :| 0 <= i < |Ancestors(name)| && Ancestors(name)[i] == a;
      AncestorIsDotPrefix(name, i);
    }
    if DotPrefix(a, name) {
      DotPrefixIsAncestor(name, a);
    }
  }

  /** `ancestors.find { |a| @metrics[a] }`. */
  function FirstStored(names: seq<string>, s: Store): (r: Option<string>)
    ensures r.None? <==> forall i :: 0 <= i < |names| ==> names[i] !in s.metrics
    ensures r.Some? ==> r.value in names && r.value in s.metrics
  {
    if |names| == 0 then None
    else if names[0] in s.metrics then Some(names[0])
    else FirstStored(names[1..], s)
  }

  /** `get_metric(name)`: the stored metric, or a new one at the current
      time, or the error the program raises. */
  function GetMetric(s: Store, name: string, now: real): (r: Result<(Store, FlatMetric.Metric), string>)
    ensures !ValidName(name) <==> r == Err("Invalid metric name: " + name)
    ensures ValidName(name) && name in s.metrics ==> r == Ok((s, s.metrics[name]))
    ensures r.Ok? <==> (ValidName(name) &&
      (name in s.metrics || forall m :: m in s.metrics ==> !DotPrefix(name, m) && !DotPrefix(m, name)))
    ensures r.Ok? ==> name in r.value.0.metrics && r.value.1 == r.value.0.metrics[name]
    ensures r.Ok? ==> r.value.0.metrics.Keys == s.metrics.Keys + {name}
    ensures r.Ok? ==> forall m :: m in s.metrics ==> r.value.0.metrics[m] == s.metrics[m]
    ensures r.Ok? && name !in s.metrics ==> r.value.1 == FlatMetric.New(now)
    ensures r.Ok? && NoNesting(s) ==> NoNesting(r.value.0)
  {
    if !ValidName(name) then Err("Invalid metric name: " + name)
    else if name in s.metrics then Ok((s, s.metrics[name]))
    else if exists m :: m in s.metrics && DotPrefix(name, m) then
      assert ("Cannot create new metric in category " + name)[0] == 'C';
      Err("Cannot create new metric in category " + name)
    else
      forall m | m in s.metrics ensures m in Ancestors(name) <==> DotPrefix(m, name) {
        AncestorsAreDotPrefixes(name, m);
      }
      match FirstStored(Ancestors(name), s)
      case Some(a) =>
        assert ("Cannot create new metric " + name + " under existing metric " + a)[0] == 'C';
        Err("Cannot create new metric " + name + " under existing metric " + a)
      case None =>
        var metric := FlatMetric.New(now);
        Ok((Store(s.metrics[name := metric]), metric))
  }

  /** Asking twice for the same name gives the same metric and no change. */
  lemma GetMetricIdempotent(s: Store, name: string, now: real, later: real)
    requires GetMetric(s, name, now).Ok?
    ensures var (s1, m1) := GetMetric(s, name, now).value;
      GetMetric(s1, name, later) == Ok((s1, m1))
  {
  }

  /** `record(name, value, unit)`: fetches or creates the metric, then
      records on it with the intended `Metric#record`. */
  function Record(s: Store, name: string, v: Option<real>, u: UnitArg, now: real): (r: Result<Store, string>)
    ensures r.Ok? <==> GetMetric(s, name, now).Ok?
    ensures r.Err? ==> r == Err(GetMetric(s, name, now).error)
    ensures r.Ok? ==> name in r.value.metrics
    ensures r.Ok? && v.Some? ==> FlatMetric.Value(r.value.metrics[name], u) == v
    ensures r.Ok? ==> forall m :: m in s.metrics && m != name ==> m in r.value.metrics && r.value.metrics[m] == s.metrics[m]
    ensures r.Ok? && NoNesting(s) ==> NoNesting(r.value)
  {
    match GetMetric(s, name, now)
    case Err(e) => Err(e)
    case Ok((s1, metric)) =>
      Ok(Store(s1.metrics[name := FlatMetric.Record(metric, v, u, now)]))
  }

  /** The metrics as written: names are checked with the line-anchored pattern. */
  function GetMetricAsWritten(s: Store, name: string, now: real): (r: Result<(Store, FlatMetric.Metric), string>)
    ensures !ValidNameAsWritten(name) ==> r == Err("Invalid metric name: " + name)
    ensures r.Ok? ==> name in r.value.0.metrics && r.value.0.metrics.Keys == s.metrics.Keys + {name}
  {
    if !ValidNameAsWritten(name) then Err("Invalid metric name: " + name)
    else if name in s.metrics then Ok((s, s.metrics[name]))
    else if exists m :: m in s.metrics && DotPrefix(name, m) then
      Err("Cannot create new metric in category " + name)
    else
      match FirstStored(Ancestors(name), s)
      case Some(a) => Err("Cannot create new metric " + name + " under existing metric " + a)
      case None =>
        var metric := FlatMetric.New(now);
        Ok((Store(s.metrics[name := metric]), metric))
  }

  /** The line-anchored check accepts `"abc\na."`: its first line has the shape. */
  /** On every name the whole-string check accepts, the program's
      `get_metric` is the intended one, with all of its guarantees. */
  lemma AsWrittenAgrees(s: Store, name: string, now: real)
    requires ValidName(name)
    ensures GetMetricAsWritten(s, name, now) == GetMetric(s, name, now)
  {
    ValidNameAccepted(name);
  }

  lemma NewlineNameAccepted()
    ensures ValidNameAsWritten("abc\na.")
    ensures !ValidName("abc\na.")
  {
    var name := "abc\na.";
    assert name == "abc" + ['\n'] + "a.";
    Text.SplitOnAppend("abc", "a.", '\n');
    Text.SplitOnNoSep("abc", '\n');
    Text.SplitOnNoSep("a.", '\n');
    assert Text.SplitOn(name, '\n')[0] == "abc";
    assert NameShape("abc");
    assert !IsWordChar(name[|name| - 1]);
  }

  /** `"abc\na.".split('.')` is one piece, so no enclosing category is checked. */
  lemma NewlineNameNoAncestors()
    ensures Ancestors("abc\na.") == []
  {
    var name := "abc\na.";
    assert name == "abc\na" + ['.'] + "";
    Text.SplitOnAppend("abc\na", "", '.');
    Text.SplitOnNoSep("abc\na", '.');
    Text.SplitOnNoSep("", '.');
    assert Text.SplitOn(name, '.') == ["abc\na", ""];
    assert Text.SplitOn(name, '.')[..1] == ["abc\na"];
    assert Text.RubySplit(name, '.') == ["abc\na"];
  }

  /** With the line-anchored check, `"abc\na."` passes; since it ends in a
      dot, no enclosing category is checked, so it is created inside the
      stored metric `"abc\na"`.  The intended check refuses it. */
  lemma NewlineNameNests(m0: FlatMetric.Metric, now: real)
    ensures GetMetricAsWritten(Store(map["abc\na" := m0]), "abc\na.", now).Ok?
    ensures !NoNesting(GetMetricAsWritten(Store(map["abc\na" := m0]), "abc\na.", now).value.0)
    ensures GetMetric(Store(map["abc\na" := m0]), "abc\na.", now).Err?
  {
    NewlineNameAccepted();
    NewlineNameNoAncestors();
    assert DotPrefix("abc\na", "abc\na.");
    NestsUnderParent(Store(map["abc\na" := m0]), "abc\na.", "abc\na", now);
  }

  /** A name that passes the check as written, has no enclosing categories
      to look up and lies inside the only stored metric is created there. */
  lemma NestsUnderParent(s: Store, name: string, parent: string, now: real)
    requires ValidNameAsWritten(name) && Ancestors(name) == []
    requires s.metrics.Keys == {parent} && DotPrefix(parent, name)
    ensures GetMetricAsWritten(s, name, now).Ok?
    ensures !NoNesting(GetMetricAsWritten(s, name, now).value.0)
  {
    assert name != parent;
    assert !DotPrefix(name, parent);
    var s1 := GetMetricAsWritten(s, name, now).value.0;
    assert parent in s1.metrics && name in s1.metrics;
  }
}
