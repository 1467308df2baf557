/** `Solanum::Source::Diskstats` of lib/solanum/source/diskstats.rb.  One
    `collect!` call is a fold over the lines of /proc/diskstats, which are a
    parameter; `@last`, the baseline from the previous call, is threaded
    through explicitly. */
module Diskstats {
  import opened Wrappers
  import Text
  import opened Counters

  /** FIELDS: three identifying columns, then eleven counters. */
  const Fields: seq<string> := [
    "major", "minor", "name",
    "reads_completed", "reads_merged", "read_sectors", "read_time",
    "writes_completed", "writes_merged", "write_sectors", "write_time",
    "io_active", "io_time", "io_weighted_time"]

  /** A parsed line: the three text columns and the eleven counters, each nil
      when the line is too short to reach it. */
  datatype Stats = Stats(ids: seq<Option<string>>, counts: seq<Option<int>>)

  type Row = s: Stats | |s.ids| == 3 && |s.counts| == 11
    witness Stats([None, None, None], seq(11, _ => None))

  /** `@last`: the stats of every selected device seen so far. */
  type Last = map<string, Row>

  /** `parse_stats(line)`: strip, split on whitespace, keep the first three
      columns as text, `to_i` the rest and zip with FIELDS (so columns beyond
      the fourteenth are dropped and missing ones are nil). */
  function ParseStats(line: string): (r: Row)
    ensures r.ids[2].Some? <==> |Text.Tokens(line)| >= 3
    ensures forall i :: 0 <= i < 11 ==> (r.counts[i].Some? <==> i + 3 < |Text.Tokens(line)|)
  {
    var cols := Text.Tokens(line);
    Stats(seq(3, i requires 0 <= i < 3 => if i < |cols| then Some(cols[i]) else None),
          seq(11, i requires 0 <= i < 11 => if i + 3 < |cols| then Some(Text.ToI(cols[i + 3])) else None))
  }

  /** The device name of a parsed line. */
  function Device(s: Row): Option<string> { s.ids[2] }

  /** A /proc/diskstats line with the given identifying columns and counters. */
  function Render(ids: seq<string>, counts: seq<nat>): string {
    Text.Unwords(ids + seq(|counts|, i requires 0 <= i < |counts| => Text.NatToString(counts[i])))
  }

  /** Parsing a rendered line gives back its columns; counters past the
      eleventh are ignored. */
  lemma ParseRender(ids: seq<string>, counts: seq<nat>)
    requires |ids| == 3 && forall i :: 0 <= i < 3 ==> Text.IsWord(ids[i])
    requires |counts| >= 11
    ensures ParseStats(Render(ids, counts)).ids == [Some(ids[0]), Some(ids[1]), Some(ids[2])]
    ensures forall i :: 0 <= i < 11 ==> ParseStats(Render(ids, counts)).counts[i] == Some(counts[i] as int)
  {
    var ws := ids + seq(|counts|, i requires 0 <= i < |counts| => Text.NatToString(counts[i]));
    forall i | 0 <= i < |ws| ensures Text.IsWord(ws[i]) {
      if i >= 3 {
        assert ws[i] == Text.NatToString(counts[i - 3]);
      }
    }
    Text.TokensUnwords(ws);
    forall i | 0 <= i < 11 ensures Text.ToI(ws[i + 3]) == counts[i] {
      Text.ToIRoundTrip(counts[i]);
    }
  }

  /** `^sd[a-z]$` on a token (which holds no newline, so the anchors cover
      the whole name). */
  predicate IsSdName(s: string) {
    |s| == 3 && s[0] == 's' && s[1] == 'd' && 'a' <= s[2] <= 'z'
  }

  /** Device selection: listed in `devices`, or no list and an `sd?` name. */
  predicate Selected(devices: seq<string>, name: Option<string>) {
    name.Some? && (name.value in devices || (|devices| == 0 && IsSdName(name.value)))
  }

  /** Every stored device is one the configuration selects. */
  predicate KeysSelected(devices: seq<string>, last: Last) {
    forall k :: k in last ==> Selected(devices, Some(k))
  }

  /** The reported counters in emission order: service suffix and counter
      index (0 is reads_completed, 10 is io_weighted_time). */
  function Reported(detailed: bool): (r: seq<(string, nat)>)
    ensures |r| == if detailed then 11 else 7
    ensures forall i :: 0 <= i < |r| ==> r[i].1 < 11
    ensures forall i, j :: 0 <= i < j < |r| ==> r[i].1 != r[j].1
  {
    [("read sectors", 2), ("read time", 3)]
    + (if detailed then [("read completed", 0), ("read merged", 1)] else [])
    + [("write sectors", 6), ("write time", 7)]
    + (if detailed then [("write completed", 4), ("write merged", 5)] else [])
    + [("io active", 8), ("io time", 9), ("io weighted-time", 10)]
  }

  /** Detailed mode reports every counter; plain mode leaves out exactly the
      completed and merged counts. */
  lemma ReportedCounters(k: nat)
    requires k < 11
    ensures exists i :: 0 <= i < |Reported(true)| && Reported(true)[i].1 == k
    ensures (exists i :: 0 <= i < |Reported(false)| && Reported(false)[i].1 == k) <==> k !in {0, 1, 4, 5}
  {
    var d := Reported(true);
    var w := [2, 3, 0, 1, 6, 7, 4, 5, 8, 9, 10];
    assert forall i :: 0 <= i < 11 ==> d[i].1 == w[i];
    assert d[w[k]].1 == k;
    var p := Reported(false);
    var v := [2, 3, 6, 7, 8, 9, 10];
    assert forall i :: 0 <= i < 7 ==> p[i].1 == v[i];
    if k !in {0, 1, 4, 5} {
      var pos := [0, 0, 0, 1, 0, 0, 2, 3, 4, 5, 6];
      assert p[pos[k]].1 == k;
    }
  }

  /** The per-counter deltas of two parsed lines, when no counter is nil. */
  function Diff(current: Row, previous: Row): (r: Option<seq<int>>)
    ensures r.Some? <==> forall i :: 0 <= i < 11 ==> current.counts[i].Some? && previous.counts[i].Some?
    ensures r.Some? ==> |r.value| == 11
    ensures r.Some? ==> forall i :: 0 <= i < 11 ==> r.value[i] + previous.counts[i].value == current.counts[i].value
  {
    if forall i :: 0 <= i < 11 ==> Delta(current.counts[i], previous.counts[i]).Some?
    then Some(seq(11, i requires 0 <= i < 11 => Delta(current.counts[i], previous.counts[i]).value))
    else None
  }

  /** The events of one seen device, prefixed "diskstats <device>". */
  function DeviceEvents(device: string, diff: seq<int>, detailed: bool): seq<Event>
    requires |diff| == 11
  {
    var rep := Reported(detailed);
    seq(|rep|, i requires 0 <= i < |rep| => Event("diskstats " + device + " " + rep[i].0, diff[rep[i].1]))
  }

  /** One line of `collect!`, once parsed. */
  function Step(devices: seq<string>, detailed: bool, last: Last, stats: Row): (r: Outcome<Last>)
    ensures !Selected(devices, Device(stats)) ==> r == Done([], last)
    ensures r.Raised? ==> r.last == last && Device(stats).value in last
    ensures r.Done? && Selected(devices, Device(stats)) ==> r.last == last[Device(stats).value := stats]
    ensures r.Done? && |r.events| > 0 ==> Device(stats).value in last
  {
    var name := Device(stats);
    if !Selected(devices, name) then Done([], last)
    else if name.value !in last then Done([], last[name.value := stats])
    else
      match Diff(stats, last[name.value])
      case None => Raised(last)
      case Some(d) => Done(DeviceEvents(name.value, d, detailed), last[name.value := stats])
  }

  /** A selected device seen before either makes the call raise, exactly when
      one of its counters is missing now or was missing then, or emits one
      event per reported counter, each the current value minus the last. */
  lemma SeenDevice(devices: seq<string>, detailed: bool, last: Last, stats: Row)
    requires Selected(devices, Device(stats)) && Device(stats).value in last
    ensures Step(devices, detailed, last, stats).Raised? <==>
      exists i :: 0 <= i < 11 && (stats.counts[i].None? || last[Device(stats).value].counts[i].None?)
    ensures var r := Step(devices, detailed, last, stats);
      r.Done? ==>
        |r.events| == (if detailed then 11 else 7) &&
        forall i :: 0 <= i < |r.events| ==>
          r.events[i].service == "diskstats " + Device(stats).value + " " + Reported(detailed)[i].0 &&
          r.events[i].metric ==
            stats.counts[Reported(detailed)[i].1].value - last[Device(stats).value].counts[Reported(detailed)[i].1].value
  {
  }

  /** `collect!` over lines already parsed. */
  function CollectRows(devices: seq<string>, detailed: bool, last: Last, rows: seq<Row>): (r: Outcome<Last>)
    ensures KeysSelected(devices, last) ==> KeysSelected(devices, r.last)
    ensures last.Keys <= r.last.Keys
    decreases |rows|, 0
  {
    if |rows| == 0 then Done([], last)
    else Continue(devices, detailed, Step(devices, detailed, last, rows[0]), rows[1..])
  }

  /** Carries on with `rows` after an outcome, unless it raised. */
  function Continue(devices: seq<string>, detailed: bool, o: Outcome<Last>, rows: seq<Row>): (r: Outcome<Last>)
    ensures KeysSelected(devices, o.last) ==> KeysSelected(devices, r.last)
    ensures o.last.Keys <= r.last.Keys
    decreases |rows|, 1
  {
    match o
    case Raised(l) => Raised(l)
    case Done(e, l) =>
      match CollectRows(devices, detailed, l, rows)
      case Raised(l2) => Raised(l2)
      case Done(e2, l2) => Done(e + e2, l2)
  }

  /** `collect!`: every line of the file, parsed then processed in order. */
  function Collect(devices: seq<string>, detailed: bool, last: Last, lines: seq<string>): (r: Outcome<Last>)
    ensures KeysSelected(devices, last) ==> KeysSelected(devices, r.last)
    ensures last.Keys <= r.last.Keys
  {
    CollectRows(devices, detailed, last, seq(|lines|, i requires 0 <= i < |lines| => ParseStats(lines[i])))
  }

  /** Processing `a + b` is processing `a`, then `b` from where `a` left off. */
  lemma {:induction false} CollectAppend(devices: seq<string>, detailed: bool, last: Last, a: seq<Row>, b: seq<Row>)
    ensures CollectRows(devices, detailed, last, a + b) ==
      Continue(devices, detailed, CollectRows(devices, detailed, last, a), b)
    decreases |a|
  {
    if |a| == 0 {
      assert a + b == b;
    } else {
      assert (a + b)[0] == a[0];
      assert (a + b)[1..] == a[1..] + b;
      var s := Step(devices, detailed, last, a[0]);
      if s.Done? {
        CollectAppend(devices, detailed, s.last, a[1..], b);
        var r1 := CollectRows(devices, detailed, s.last, a[1..]);
        ContinuePrepend(devices, detailed, s.events, r1, b);
      }
    }
  }

  /** Events emitted earlier stay in front whatever the later lines do. */
  lemma ContinuePrepend(devices: seq<string>, detailed: bool, e: seq<Event>, o: Outcome<Last>, b: seq<Row>)
    ensures Continue(devices, detailed, Prepend(e, o), b) == Prepend(e, Continue(devices, detailed, o, b))
  {
    if o.Done? {
      PrependTwice(e, o.events, CollectRows(devices, detailed, o.last, b));
    }
  }

  /** The baseline of a selected device is replaced by its latest line. */
  lemma LatestBaseline(devices: seq<string>, detailed: bool, last: Last, rows: seq<Row>, stats: Row)
    requires Selected(devices, Device(stats))
    requires CollectRows(devices, detailed, last, rows + [stats]).Done?
    ensures Device(stats).value in CollectRows(devices, detailed, last, rows + [stats]).last
    ensures CollectRows(devices, detailed, last, rows + [stats]).last[Device(stats).value] == stats
  {
    CollectAppend(devices, detailed, last, rows, [stats]);
    assert [stats][0] == stats && [stats][1..] == [];
    var r := CollectRows(devices, detailed, last, rows);
    var t := Step(devices, detailed, r.last, stats);
    assert CollectRows(devices, detailed, r.last, [stats]) == Continue(devices, detailed, t, []);
    assert t.Done? ==> CollectRows(devices, detailed, t.last, []) == Done([], t.last);
  }

  /** The names of the selected devices among `rows`. */
  function SelectedNames(devices: seq<string>, rows: seq<Row>): (r: set<string>)
    ensures forall k :: k in r ==> Selected(devices, Some(k))
    decreases |rows|
  {
    if |rows| == 0 then {}
    else
      var name := Device(rows[0]);
      (if Selected(devices, name) then {name.value} else {}) + SelectedNames(devices, rows[1..])
  }

  /** Each selected device appears on at most one line. */
  predicate DistinctSelected(devices: seq<string>, rows: seq<Row>) {
    forall i, j :: 0 <= i < j < |rows| && Selected(devices, Device(rows[i])) ==> Device(rows[i]) != Device(rows[j])
  }

  /** A selected name comes from some line. */
  lemma {:induction false} SelectedNamesWitness(devices: seq<string>, rows: seq<Row>, k: string)
    requires k in SelectedNames(devices, rows)
    ensures exists j :: 0 <= j < |rows| && Device(rows[j]) == Some(k)
    decreases |rows|
  {
    if !(Selected(devices, Device(rows[0])) && Device(rows[0]).value == k) {
      SelectedNamesWitness(devices, rows[1..], k);
      var j :| 0 <= j < |rows[1..]| && Device(rows[1..][j]) == Some(k);
      assert rows[1..][j] == rows[j + 1];
    }
  }

  /** A device seen for the first time: no events, the baseline stored. */
  lemma FirstSight(devices: seq<string>, detailed: bool, last: Last, stats: Row)
    requires Selected(devices, Device(stats)) ==> Device(stats).value !in last
    ensures Step(devices, detailed, last, stats) ==
      Done([], if Selected(devices, Device(stats)) then last[Device(stats).value := stats] else last)
  {
  }

  /** Distinct selected devices stay distinct on the remaining lines, and
      none of them is the first line's device. */
  lemma DistinctTail(devices: seq<string>, rows: seq<Row>)
    requires |rows| > 0 && DistinctSelected(devices, rows)
    ensures DistinctSelected(devices, rows[1..])
    ensures Selected(devices, Device(rows[0])) ==> Device(rows[0]).value !in SelectedNames(devices, rows[1..])
  {
    forall i, j | 0 <= i < j < |rows[1..]| && Selected(devices, Device(rows[1..][i]))
      ensures Device(rows[1..][i]) != Device(rows[1..][j])
    {
      assert rows[1..][i] == rows[i + 1] && rows[1..][j] == rows[j + 1];
    }
    if Selected(devices, Device(rows[0])) {
      forall j | 0 <= j < |rows[1..]| ensures Device(rows[1..][j]) != Device(rows[0]) {
        assert rows[1..][j] == rows[j + 1];
      }
      NameNotSelected(devices, rows[1..], Device(rows[0]).value);
    }
  }

  /** A name no line carries is not among the selected names. */
  lemma {:induction false} NameNotSelected(devices: seq<string>, rows: seq<Row>, k: string)
    requires forall j :: 0 <= j < |rows| ==> Device(rows[j]) != Some(k)
    ensures k !in SelectedNames(devices, rows)
    decreases |rows|
  {
    if |rows| > 0 {
      assert forall j :: 0 <= j < |rows[1..]| ==> rows[1..][j] == rows[j + 1];
      NameNotSelected(devices, rows[1..], k);
    }
  }

  /** The first call sees every device for the first time: it emits nothing,
      never raises, and stores a baseline for each selected device. */
  lemma {:induction false} FirstCycleSilent(devices: seq<string>, detailed: bool, last: Last, rows: seq<Row>)
    requires DistinctSelected(devices, rows)
    requires forall k :: k in SelectedNames(devices, rows) ==> k !in last
    ensures CollectRows(devices, detailed, last, rows).Done?
    ensures CollectRows(devices, detailed, last, rows).events == []
    ensures CollectRows(devices, detailed, last, rows).last.Keys == last.Keys + SelectedNames(devices, rows)
    decreases |rows|
  {
    if |rows| > 0 {
      var row := rows[0];
      var sel := Selected(devices, Device(row));
      var l := if sel then last[Device(row).value := row] else last;
      FirstSight(devices, detailed, last, row);
      DistinctTail(devices, rows);
      assert SelectedNames(devices, rows) == (if sel then {Device(row).value} else {}) + SelectedNames(devices, rows[1..]);
      assert forall k :: k in SelectedNames(devices, rows[1..]) ==> k !in l;
      FirstCycleSilent(devices, detailed, l, rows[1..]);
      SilentContinue(devices, detailed, l, rows[1..]);
    }
  }

  /** Carrying on silently after a step that emitted nothing. */
  lemma SilentContinue(devices: seq<string>, detailed: bool, l: Last, rows: seq<Row>)
    requires CollectRows(devices, detailed, l, rows).Done?
    ensures Continue(devices, detailed, Done([], l), rows) == CollectRows(devices, detailed, l, rows)
  {
    var rest := CollectRows(devices, detailed, l, rows);
    assert [] + rest.events == rest.events;
  }

  /** Two calls over one `sd?` device: the first stores the baseline, the
      second reports 7 (or 11) deltas, each new reading minus the old; a
      counter that went backwards yields a negative delta. */
  lemma TwoCycles(ids: seq<string>, c1: seq<nat>, c2: seq<nat>, detailed: bool)
    requires |ids| == 3 && forall i :: 0 <= i < 3 ==> Text.IsWord(ids[i])
    requires IsSdName(ids[2])
    requires |c1| >= 11 && |c2| >= 11
    ensures var first := Collect([], detailed, map[], [Render(ids, c1)]);
      first.Done? && first.events == [] && first.last.Keys == {ids[2]} &&
      var second := Collect([], detailed, first.last, [Render(ids, c2)]);
      second.Done? && |second.events| == (if detailed then 11 else 7) &&
      forall i :: 0 <= i < |second.events| ==>
        second.events[i].metric == c2[Reported(detailed)[i].1] as int - c1[Reported(detailed)[i].1] as int
  {
    var l1 := Render(ids, c1);
    var l2 := Render(ids, c2);
    ParseRender(ids, c1);
    ParseRender(ids, c2);
    var s1 := ParseStats(l1);
    var s2 := ParseStats(l2);
    assert Device(s1) == Some(ids[2]) && Device(s2) == Some(ids[2]);
    assert seq(1, i requires 0 <= i < 1 => ParseStats([l1][i])) == [s1];
    assert seq(1, i requires 0 <= i < 1 => ParseStats([l2][i])) == [s2];
    var first := CollectRows([], detailed, map[], [s1]);
    assert [s1][1..] == [] && [s2][1..] == [];
    assert Step([], detailed, map[], s1) == Done([], map[ids[2] := s1]);
    assert CollectRows([], detailed, map[ids[2] := s1], []) == Done([], map[ids[2] := s1]);
    assert [s1][0] == s1 && [s2][0] == s2;
    assert first == Continue([], detailed, Step([], detailed, map[], s1), []);
    assert first == Done([] + [], map[ids[2] := s1]);
    SeenDevice([], detailed, first.last, s2);
    var t := Step([], detailed, first.last, s2);
    assert t.Done?;
    assert CollectRows([], detailed, first.last, [s2]) == Done(t.events, t.last);
  }
}
