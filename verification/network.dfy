/** `Solanum::Source::Network` of lib/solanum/source/network.rb.  One
    `collect!` call folds over the lines of /proc/net/dev (a parameter) after
    its two header lines; `@last` is threaded through explicitly. */
module Network {
  import opened Wrappers
  import Text
  import opened Counters

  /** FIELDS: the sixteen counters after the interface name. */
  const Fields: seq<string> := [
    "rx_bytes", "rx_packets", "rx_errs", "rx_drop", "rx_fifo", "rx_frame", "rx_compressed", "rx_multicast",
    "tx_bytes", "tx_packets", "tx_errs", "tx_drop", "tx_fifo", "tx_colls", "tx_carrier", "tx_compressed"]

  /** SIMPLE_FIELDS: the counters reported when not detailed. */
  const SimpleFields: seq<string> := ["rx_bytes", "rx_packets", "tx_bytes", "tx_packets"]

  /** A parsed line: the interface name and the sixteen counters, each nil
      when the line is too short to reach it. */
  datatype Stats = Stats(iface: string, counts: seq<Option<int>>)

  type Row = s: Stats | |s.counts| == 16 witness Stats("", seq(16, _ => None))

  /** `@last`: the stats of every selected interface seen so far. */
  type Last = map<string, Row>

  /** `parse_stats(line)`: the first column with one trailing ':' chomped is
      the interface; the remaining columns, `to_i`'d, are zipped with FIELDS.
      A blank line has no first column and `nil.chomp` raises: None. */
  function ParseStats(line: string): (r: Option<Row>)
    ensures r.None? <==> |Text.Tokens(line)| == 0
  {
    var cols := Text.Tokens(line);
    if |cols| == 0 then None
    else Some(Stats(Text.Chomp(cols[0], ':'),
      seq(16, i requires 0 <= i < 16 => if i + 1 < |cols| then Some(Text.ToI(cols[i + 1])) else None)))
  }

  /** A /proc/net/dev line for an interface and its counters. */
  function Render(iface: string, counts: seq<nat>): string {
    Text.Unwords([iface + ":"] + seq(|counts|, i requires 0 <= i < |counts| => Text.NatToString(counts[i])))
  }

  /** Parsing a rendered line gives back the interface and its counters;
      counters past the sixteenth are ignored. */
  lemma ParseRender(iface: string, counts: seq<nat>)
    requires Text.IsWord(iface)
    requires |counts| >= 16
    ensures ParseStats(Render(iface, counts)).Some?
    ensures ParseStats(Render(iface, counts)).value.iface == iface
    ensures forall i :: 0 <= i < 16 ==> ParseStats(Render(iface, counts)).value.counts[i] == Some(counts[i] as int)
  {
    var ws := [iface + ":"] + seq(|counts|, i requires 0 <= i < |counts| => Text.NatToString(counts[i]));
    forall i | 0 <= i < |ws| ensures Text.IsWord(ws[i]) {
      if i >= 1 {
        assert ws[i] == Text.NatToString(counts[i - 1]);
      }
    }
    Text.TokensUnwords(ws);
    assert (iface + ":")[..|iface|] == iface;
    forall i | 0 <= i < 16 ensures Text.ToI(ws[i + 1]) == counts[i] {
      Text.ToIRoundTrip(counts[i]);
    }
  }

  /** Interface selection: no list, or listed. */
  predicate Selected(interfaces: seq<string>, iface: string) {
    |interfaces| == 0 || iface in interfaces
  }

  /** Whether the counter at index `i` is reported: SIMPLE_FIELDS sit at
      indices 0, 1, 8 and 9 of FIELDS. */
  predicate IsReported(detailed: bool, i: nat) {
    detailed || i == 0 || i == 1 || i == 8 || i == 9
  }

  /** The indices IsReported singles out are exactly those of SIMPLE_FIELDS. */
  lemma SimpleIndices(i: nat)
    requires i < 16
    ensures Fields[i] in SimpleFields <==> IsReported(false, i)
  {
    if IsReported(false, i) {
      assert Fields[i] == SimpleFields[if i < 2 then i else i - 6];
    } else {
      forall j | 0 <= j < 4 ensures Fields[i] != SimpleFields[j] {
        assert Fields[i][0] != SimpleFields[j][0] || Fields[i][3] != SimpleFields[j][3] || Fields[i][4] != SimpleFields[j][4] || |Fields[i]| != |SimpleFields[j]|;
      }
    }
  }

  /** The reported counter indices below `n`, in FIELDS order. */
  function ReportedBelow(detailed: bool, n: nat): (r: seq<nat>)
    requires n <= 16
    ensures forall k :: 0 <= k < |r| ==> r[k] < n && IsReported(detailed, r[k])
  {
    if n == 0 then []
    else ReportedBelow(detailed, n - 1) + (if IsReported(detailed, n - 1) then [n - 1] else [])
  }

  /** All reported counter indices, in FIELDS order. */
  function Reported(detailed: bool): seq<nat> {
    ReportedBelow(detailed, 16)
  }

  /** Detailed mode reports all sixteen counters in order; plain mode the
      four simple ones. */
  lemma ReportedCounts()
    ensures Reported(true) == seq(16, i => i)
    ensures Reported(false) == [0, 1, 8, 9]
  {
    ReportedAll(16);
    PlainBelow(16);
  }

  /** In plain mode the indices below `n` that are reported. */
  lemma {:induction false} PlainBelow(n: nat)
    requires n <= 16
    ensures ReportedBelow(false, n) ==
      if n == 0 then [] else if n == 1 then [0] else if n <= 8 then [0, 1] else if n == 9 then [0, 1, 8] else [0, 1, 8, 9]
  {
    if n > 0 {
      PlainBelow(n - 1);
    }
  }

  /** In detailed mode every index below `n` is reported, in order. */
  lemma {:induction false} ReportedAll(n: nat)
    requires n <= 16
    ensures ReportedBelow(true, n) == seq(n, i => i)
  {
    if n > 0 {
      ReportedAll(n - 1);
    }
  }

  /** `lbl` is `field.gsub('_', ' ')`. */
  predicate SpacedOf(lbl: string, field: string) {
    |lbl| == |field| && forall j :: 0 <= j < |field| ==> lbl[j] == if field[j] == '_' then ' ' else field[j]
  }

  /** The service suffixes, FIELDS with underscores turned into spaces. */
  const Labels: seq<string> := [
    "rx bytes", "rx packets", "rx errs", "rx drop", "rx fifo", "rx frame", "rx compressed", "rx multicast",
    "tx bytes", "tx packets", "tx errs", "tx drop", "tx fifo", "tx colls", "tx carrier", "tx compressed"]

  /** Each label is its field name after `gsub('_', ' ')`. */
  lemma LabelsSpaced(i: nat)
    requires i < 16
    ensures SpacedOf(Labels[i], Fields[i])
  {
    if i < 4 {
      RxLabelsLow(i);
    } else if i < 8 {
      RxLabelsHigh(i);
    } else if i < 12 {
      TxLabelsLow(i);
    } else {
      TxLabelsHigh(i);
    }
  }

  /** `LabelsSpaced` for indices 0 to 3. */
  lemma RxLabelsLow(i: nat)
    requires 0 <= i < 4
    ensures SpacedOf(Labels[i], Fields[i])
  {
    if i == 0 {
      assert SpacedOf(Labels[0], Fields[0]);
    } else if i == 1 {
      assert SpacedOf(Labels[1], Fields[1]);
    } else if i == 2 {
      assert SpacedOf(Labels[2], Fields[2]);
    } else {
      assert SpacedOf(Labels[3], Fields[3]);
    }
  }

  /** `LabelsSpaced` for indices 4 to 7. */
  lemma RxLabelsHigh(i: nat)
    requires 4 <= i < 8
    ensures SpacedOf(Labels[i], Fields[i])
  {
    if i == 4 {
      assert SpacedOf(Labels[4], Fields[4]);
    } else if i == 5 {
      assert SpacedOf(Labels[5], Fields[5]);
    } else if i == 6 {
      assert SpacedOf(Labels[6], Fields[6]);
    } else {
      assert SpacedOf(Labels[7], Fields[7]);
    }
  }

  /** `LabelsSpaced` for indices 8 to 11. */
  lemma TxLabelsLow(i: nat)
    requires 8 <= i < 12
    ensures SpacedOf(Labels[i], Fields[i])
  {
    if i == 8 {
      assert SpacedOf(Labels[8], Fields[8]);
    } else if i == 9 {
      assert SpacedOf(Labels[9], Fields[9]);
    } else if i == 10 {
      assert SpacedOf(Labels[10], Fields[10]);
    } else {
      assert SpacedOf(Labels[11], Fields[11]);
    }
  }

  /** `LabelsSpaced` for indices 12 to 15. */
  lemma TxLabelsHigh(i: nat)
    requires 12 <= i < 16
    ensures SpacedOf(Labels[i], Fields[i])
  {
    if i == 12 {
      assert SpacedOf(Labels[12], Fields[12]);
    } else if i == 13 {
      assert SpacedOf(Labels[13], Fields[13]);
    } else if i == 14 {
      assert SpacedOf(Labels[14], Fields[14]);
    } else {
      assert SpacedOf(Labels[15], Fields[15]);
    }
  }

  /** The service of the counter at index `i`: "net <iface> <label>". */
  function Service(iface: string, i: nat): string
    requires i < 16
  {
    "net " + iface + " " + Labels[i]
  }

  /** The events for the counters at `indices`, or None when one of them is
      nil on either side (the subtraction raises). */
  function FieldEvents(iface: string, current: Row, previous: Row, indices: seq<nat>): (r: Option<seq<Event>>)
    requires forall k :: 0 <= k < |indices| ==> indices[k] < 16
    ensures r.Some? <==> forall k :: 0 <= k < |indices| ==>
      current.counts[indices[k]].Some? && previous.counts[indices[k]].Some?
    ensures r.Some? ==> |r.value| == |indices|
    ensures r.Some? ==> forall k :: 0 <= k < |indices| ==>
      r.value[k].service == Service(iface, indices[k]) &&
      r.value[k].metric + previous.counts[indices[k]].value == current.counts[indices[k]].value
    decreases |indices|
  {
    if |indices| == 0 then Some([])
    else
      var init := indices[..|indices| - 1];
      var f := indices[|indices| - 1];
      match FieldEvents(iface, current, previous, init)
      case None => None
      case Some(e) =>
        match Delta(current.counts[f], previous.counts[f])
        case None => None
        case Some(d) => Some(e + [Event(Service(iface, f), d)])
  }

  /** One line of `collect!`, once parsed. */
  function Step(interfaces: seq<string>, detailed: bool, last: Last, stats: Option<Row>): (r: Outcome<Last>)
    ensures stats.None? ==> r == Raised(last)
    ensures stats.Some? && !Selected(interfaces, stats.value.iface) ==> r == Done([], last)
    ensures r.Raised? ==> r.last == last
    ensures r.Done? && stats.Some? && Selected(interfaces, stats.value.iface) ==> r.last == last[stats.value.iface := stats.value]
  {
    match stats
    case None => Raised(last)
    case Some(s) =>
      if !Selected(interfaces, s.iface) then Done([], last)
      else if s.iface !in last then Done([], last[s.iface := s])
      else
        match FieldEvents(s.iface, s, last[s.iface], Reported(detailed))
        case None => Raised(last)
        case Some(e) => Done(e, last[s.iface := s])
  }

  /** The first sighting of a selected interface emits nothing and stores
      its baseline. */
  lemma FirstSighting(interfaces: seq<string>, detailed: bool, last: Last, s: Row)
    requires Selected(interfaces, s.iface) && s.iface !in last
    ensures Step(interfaces, detailed, last, Some(s)) == Done([], last[s.iface := s])
  {
  }

  /** A selected interface seen before either raises, exactly when a reported
      counter is nil now or was nil then, or emits 4 events (16 when
      detailed), each "net <iface> <field>" with current minus last. */
  lemma SeenInterface(interfaces: seq<string>, detailed: bool, last: Last, s: Row)
    requires Selected(interfaces, s.iface) && s.iface in last
    ensures Step(interfaces, detailed, last, Some(s)).Raised? <==>
      exists k :: 0 <= k < |Reported(detailed)| &&
        (s.counts[Reported(detailed)[k]].None? || last[s.iface].counts[Reported(detailed)[k]].None?)
    ensures var r := Step(interfaces, detailed, last, Some(s));
      r.Done? ==>
        |r.events| == (if detailed then 16 else 4) &&
        forall k :: 0 <= k < |r.events| ==>
          r.events[k].service == Service(s.iface, Reported(detailed)[k]) &&
          r.events[k].metric == s.counts[Reported(detailed)[k]].value - last[s.iface].counts[Reported(detailed)[k]].value
  {
    var fe := FieldEvents(s.iface, s, last[s.iface], Reported(detailed));
    assert Step(interfaces, detailed, last, Some(s)) ==
      if fe.None? then Raised(last) else Done(fe.value, last[s.iface := s]);
    assert |Reported(detailed)| == (if detailed then 16 else 4) by {
      ReportedCounts();
    }
  }

  /** `collect!` over lines already parsed. */
  function CollectRows(interfaces: seq<string>, detailed: bool, last: Last, rows: seq<Option<Row>>): (r: Outcome<Last>)
    ensures last.Keys <= r.last.Keys
    ensures forall k :: k in r.last && k !in last ==> Selected(interfaces, k)
    decreases |rows|, 0
  {
    if |rows| == 0 then Done([], last)
    else Continue(interfaces, detailed, Step(interfaces, detailed, last, rows[0]), rows[1..])
  }

  /** Carries on with `rows` after an outcome, unless it raised. */
  function Continue(interfaces: seq<string>, detailed: bool, o: Outcome<Last>, rows: seq<Option<Row>>): (r: Outcome<Last>)
    ensures o.last.Keys <= r.last.Keys
    ensures forall k :: k in r.last && k !in o.last ==> Selected(interfaces, k)
    decreases |rows|, 1
  {
    match o
    case Raised(l) => Raised(l)
    case Done(e, l) =>
      match CollectRows(interfaces, detailed, l, rows)
      case Raised(l2) => Raised(l2)
      case Done(e2, l2) => Done(e + e2, l2)
  }

  /** `readlines.drop(2)`. */
  function Body(fileLines: seq<string>): (r: seq<string>)
    ensures |fileLines| >= 2 ==> fileLines == fileLines[..2] + r
    ensures |fileLines| < 2 ==> r == []
  {
    if |fileLines| < 2 then [] else fileLines[2..]
  }

  function ParseAll(lines: seq<string>): (r: seq<Option<Row>>)
    ensures |r| == |lines|
    ensures forall i :: 0 <= i < |lines| ==> r[i] == ParseStats(lines[i])
  {
    seq(|lines|, i requires 0 <= i < |lines| => ParseStats(lines[i]))
  }

  /** `collect!`: the two header lines are skipped, every other line is
      parsed and processed in order. */
  function Collect(interfaces: seq<string>, detailed: bool, last: Last, fileLines: seq<string>): (r: Outcome<Last>)
    ensures last.Keys <= r.last.Keys
    ensures forall k :: k in r.last && k !in last ==> Selected(interfaces, k)
  {
    CollectRows(interfaces, detailed, last, ParseAll(Body(fileLines)))
  }

  /** The header lines never matter, however malformed. */
  lemma HeaderIgnored(interfaces: seq<string>, detailed: bool, last: Last, h1: string, h2: string, lines: seq<string>)
    ensures Collect(interfaces, detailed, last, [h1, h2] + lines) == CollectRows(interfaces, detailed, last, ParseAll(lines))
  {
    assert Body([h1, h2] + lines) == lines;
  }

  /** Processing `a + b` is processing `a`, then `b` from where `a` left off. */
  lemma {:induction false} CollectAppend(interfaces: seq<string>, detailed: bool, last: Last, a: seq<Option<Row>>, b: seq<Option<Row>>)
    ensures CollectRows(interfaces, detailed, last, a + b) ==
      Continue(interfaces, detailed, CollectRows(interfaces, detailed, last, a), b)
    decreases |a|
  {
    if |a| == 0 {
      assert a + b == b;
    } else {
      assert (a + b)[0] == a[0];
      assert (a + b)[1..] == a[1..] + b;
      var s := Step(interfaces, detailed, last, a[0]);
      if s.Done? {
        CollectAppend(interfaces, detailed, s.last, a[1..], b);
        var r1 := CollectRows(interfaces, detailed, s.last, a[1..]);
        ContinuePrepend(interfaces, detailed, s.events, r1, b);
      }
    }
  }

  /** Events emitted earlier stay in front whatever the later lines do. */
  lemma ContinuePrepend(interfaces: seq<string>, detailed: bool, e: seq<Event>, o: Outcome<Last>, b: seq<Option<Row>>)
    ensures Continue(interfaces, detailed, Prepend(e, o), b) == Prepend(e, Continue(interfaces, detailed, o, b))
  {
    if o.Done? {
      PrependTwice(e, o.events, CollectRows(interfaces, detailed, o.last, b));
    }
  }

  /** The baseline of a selected interface is replaced by its latest line. */
  lemma LatestBaseline(interfaces: seq<string>, detailed: bool, last: Last, rows: seq<Option<Row>>, s: Row)
    requires Selected(interfaces, s.iface)
    requires CollectRows(interfaces, detailed, last, rows + [Some(s)]).Done?
    ensures s.iface in CollectRows(interfaces, detailed, last, rows + [Some(s)]).last
    ensures CollectRows(interfaces, detailed, last, rows + [Some(s)]).last[s.iface] == s
  {
    CollectAppend(interfaces, detailed, last, rows, [Some(s)]);
    assert [Some(s)][0] == Some(s) && [Some(s)][1..] == [];
    var r := CollectRows(interfaces, detailed, last, rows);
    var t := Step(interfaces, detailed, r.last, Some(s));
    assert CollectRows(interfaces, detailed, r.last, [Some(s)]) == Continue(interfaces, detailed, t, []);
    assert t.Done? ==> CollectRows(interfaces, detailed, t.last, []) == Done([], t.last);
  }

  /** Every seen interface contributes the same number of events, so a
      call returns a whole number of per-interface groups. */
  lemma {:induction false} EventGroups(interfaces: seq<string>, detailed: bool, last: Last, rows: seq<Option<Row>>)
    requires CollectRows(interfaces, detailed, last, rows).Done?
    ensures detailed ==> |CollectRows(interfaces, detailed, last, rows).events| % 16 == 0
    ensures !detailed ==> |CollectRows(interfaces, detailed, last, rows).events| % 4 == 0
    decreases |rows|
  {
    if |rows| > 0 {
      var t := Step(interfaces, detailed, last, rows[0]);
      StepGroup(interfaces, detailed, last, rows[0]);
      var rest := CollectRows(interfaces, detailed, t.last, rows[1..]);
      assert CollectRows(interfaces, detailed, last, rows) == Continue(interfaces, detailed, t, rows[1..]);
      EventGroups(interfaces, detailed, t.last, rows[1..]);
      assert |CollectRows(interfaces, detailed, last, rows).events| == |t.events| + |rest.events|;
    }
  }

  /** One line emits nothing or one whole group of events. */
  lemma StepGroup(interfaces: seq<string>, detailed: bool, last: Last, row: Option<Row>)
    ensures var t := Step(interfaces, detailed, last, row);
      t.Done? ==> |t.events| == 0 || |t.events| == (if detailed then 16 else 4)
  {
    if row.Some? && Selected(interfaces, row.value.iface) && row.value.iface in last {
      SeenInterface(interfaces, detailed, last, row.value);
    }
  }

  /** A blank line after the headers makes the whole call raise. */
  lemma BlankLineRaises(interfaces: seq<string>, detailed: bool, last: Last, a: seq<Option<Row>>, b: seq<Option<Row>>)
    requires CollectRows(interfaces, detailed, last, a).Done?
    ensures CollectRows(interfaces, detailed, last, a + [None] + b).Raised?
  {
    CollectAppend(interfaces, detailed, last, a, [None] + b);
    assert a + [None] + b == a + ([None] + b);
    assert ([None] + b)[0] == None && ([None] + b)[1..] == b;
    var l := CollectRows(interfaces, detailed, last, a).last;
    assert CollectRows(interfaces, detailed, l, [None] + b) == Continue(interfaces, detailed, Raised(l), b);
  }

  /** A file with one line after the headers is one step. */
  lemma SingleLine(interfaces: seq<string>, detailed: bool, last: Last, line: string)
    ensures Collect(interfaces, detailed, last, ["h1", "h2", line]) == Step(interfaces, detailed, last, ParseStats(line))
  {
    HeaderIgnored(interfaces, detailed, last, "h1", "h2", [line]);
    assert ["h1", "h2", line] == ["h1", "h2"] + [line];
    var row: Option<Row> := ParseStats(line);
    var rows: seq<Option<Row>> := [row];
    assert ParseAll([line]) == rows;
    assert rows[0] == row && rows[1..] == [];
    var t := Step(interfaces, detailed, last, row);
    assert CollectRows(interfaces, detailed, t.last, []) == Done([], t.last);
    assert t.Done? ==> t.events + [] == t.events;
  }

  /** Two calls over one interface: the first stores the baseline, the
      second reports the rx/tx byte and packet deltas (all sixteen when
      detailed). */
  lemma TwoCycles(iface: string, c1: seq<nat>, c2: seq<nat>, detailed: bool)
    requires Text.IsWord(iface)
    requires |c1| >= 16 && |c2| >= 16
    ensures var first := Collect([], detailed, map[], ["h1", "h2", Render(iface, c1)]);
      first.Done? && first.events == [] && first.last.Keys == {iface} &&
      var second := Collect([], detailed, first.last, ["h1", "h2", Render(iface, c2)]);
      second.Done? && |second.events| == |Reported(detailed)| == (if detailed then 16 else 4) &&
      forall k :: 0 <= k < |Reported(detailed)| ==>
        second.events[k].metric == c2[Reported(detailed)[k]] as int - c1[Reported(detailed)[k]] as int
  {
    var l1 := Render(iface, c1);
    var l2 := Render(iface, c2);
    ParseRender(iface, c1);
    ParseRender(iface, c2);
    var s1 := ParseStats(l1).value;
    var s2 := ParseStats(l2).value;
    var m := map[iface := s1];
    assert Collect([], detailed, map[], ["h1", "h2", l1]) == Done([], m) by {
      SingleLine([], detailed, map[], l1);
      FirstSighting([], detailed, map[], s1);
    }
    assert Collect([], detailed, m, ["h1", "h2", l2]) == Step([], detailed, m, Some(s2)) by {
      SingleLine([], detailed, m, l2);
    }
    SeenInterface([], detailed, m, s2);
    assert |Reported(detailed)| == (if detailed then 16 else 4) by {
      ReportedCounts();
    }
  }
}
