/** `Solanum::Source::Network` of ruby/source/network.rb.  The file is the
    same collector as lib/solanum/source/network.rb; here `collect!` is
    written as the source's loops over lines and FIELDS, mutating `events`
    and `@last`, and shown to compute what the fold of the Network module
    computes. */
module RubyNetwork {
  import opened Wrappers
  import opened Counters
  import Network

  /** Extending the processed prefix by one row is one more step. */
  lemma PrefixStep(interfaces: seq<string>, detailed: bool, last0: Network.Last, rows: seq<Option<Network.Row>>,
                   n: nat, events: seq<Event>, last: Network.Last)
    requires n < |rows|
    requires Network.CollectRows(interfaces, detailed, last0, rows[..n]) == Done(events, last)
    ensures var t := Network.Step(interfaces, detailed, last, rows[n]);
      Network.CollectRows(interfaces, detailed, last0, rows[..n + 1]) ==
        if t.Raised? then Raised(t.last) else Done(events + t.events, t.last)
  {
    assert rows[..n + 1] == rows[..n] + [rows[n]];
    Network.CollectAppend(interfaces, detailed, last0, rows[..n], [rows[n]]);
    var one: seq<Option<Network.Row>> := [rows[n]];
    assert one[0] == rows[n] && one[1..] == [];
    var t := Network.Step(interfaces, detailed, last, rows[n]);
    assert Network.CollectRows(interfaces, detailed, last, one) == Network.Continue(interfaces, detailed, t, []);
    assert Network.CollectRows(interfaces, detailed, t.last, []) == Done([], t.last);
    assert t.Done? ==> t.events + [] == t.events;
  }

  /** Once a prefix raises, the whole call raises with the same baseline. */
  lemma RaisedPrefix(interfaces: seq<string>, detailed: bool, last0: Network.Last, rows: seq<Option<Network.Row>>, m: nat)
    requires m <= |rows|
    requires Network.CollectRows(interfaces, detailed, last0, rows[..m]).Raised?
    ensures Network.CollectRows(interfaces, detailed, last0, rows) == Network.CollectRows(interfaces, detailed, last0, rows[..m])
  {
    assert rows == rows[..m] + rows[m..];
    Network.CollectAppend(interfaces, detailed, last0, rows[..m], rows[m..]);
  }

  /** The events of the reported counters below `j + 1` extend those below
      `j` by counter `j` when it is reported. */
  lemma FieldStep(iface: string, cur: Network.Row, prev: Network.Row, detailed: bool, j: nat, e: seq<Event>)
    requires j < 16
    requires Network.FieldEvents(iface, cur, prev, Network.ReportedBelow(detailed, j)) == Some(e)
    ensures !Network.IsReported(detailed, j) ==>
      Network.FieldEvents(iface, cur, prev, Network.ReportedBelow(detailed, j + 1)) == Some(e)
    ensures Network.IsReported(detailed, j) && cur.counts[j].Some? && prev.counts[j].Some? ==>
      Network.FieldEvents(iface, cur, prev, Network.ReportedBelow(detailed, j + 1)) ==
        Some(e + [Event(Network.Service(iface, j), cur.counts[j].value - prev.counts[j].value)])
    ensures Network.IsReported(detailed, j) && !(cur.counts[j].Some? && prev.counts[j].Some?) ==>
      Network.FieldEvents(iface, cur, prev, Network.ReportedBelow(detailed, j + 1)).None?
  {
    BelowStep(detailed, j);
  }

  /** The reported indices below `j + 1` are those below `j`, then `j` when
      it is reported. */
  lemma BelowStep(detailed: bool, j: nat)
    requires j < 16
    ensures var below := Network.ReportedBelow(detailed, j);
      var next := Network.ReportedBelow(detailed, j + 1);
      if Network.IsReported(detailed, j)
      then |next| == |below| + 1 && next[|below|] == j && next[..|below|] == below
      else next == below
  {
    var below := Network.ReportedBelow(detailed, j);
    var next := Network.ReportedBelow(detailed, j + 1);
    if Network.IsReported(detailed, j) {
      assert next == below + [j];
    } else {
      assert below + [] == below;
    }
  }

  /** A None for the counters below `j` stays None below `j + 1`. */
  lemma NoneStep(iface: string, cur: Network.Row, prev: Network.Row, detailed: bool, j: nat)
    requires j < 16
    requires Network.FieldEvents(iface, cur, prev, Network.ReportedBelow(detailed, j)).None?
    ensures Network.FieldEvents(iface, cur, prev, Network.ReportedBelow(detailed, j + 1)).None?
  {
    BelowStep(detailed, j);
  }

  /** A None for the counters below `j` stays None for all of them. */
  lemma {:induction false} FieldNoneStays(iface: string, cur: Network.Row, prev: Network.Row, detailed: bool, j: nat)
    requires j <= 16
    requires Network.FieldEvents(iface, cur, prev, Network.ReportedBelow(detailed, j)).None?
    ensures Network.FieldEvents(iface, cur, prev, Network.Reported(detailed)).None?
    decreases 16 - j
  {
    if j < 16 {
      NoneStep(iface, cur, prev, detailed, j);
      FieldNoneStays(iface, cur, prev, detailed, j + 1);
    }
  }

  /** The inner loop of `collect!` over FIELDS for one seen interface:
      `next unless @detailed || SIMPLE_FIELDS.include?(field)`, then the
      delta, or a raise (`ok` false) when a reported counter is nil. */
  method FieldLoop(iface: string, stats: Network.Row, prev: Network.Row, detailed: bool)
    returns (ok: bool, e: seq<Event>)
    ensures ok <==> Network.FieldEvents(iface, stats, prev, Network.Reported(detailed)).Some?
    ensures ok ==> Network.FieldEvents(iface, stats, prev, Network.Reported(detailed)) == Some(e)
  {
    e := [];
    var j := 0;
    while j < 16
      invariant 0 <= j <= 16
      invariant Network.FieldEvents(iface, stats, prev, Network.ReportedBelow(detailed, j)) == Some(e)
    {
      FieldStep(iface, stats, prev, detailed, j, e);
      Network.SimpleIndices(j);
      if detailed || Network.Fields[j] in Network.SimpleFields {
        if stats.counts[j].None? || prev.counts[j].None? {
          FieldNoneStays(iface, stats, prev, detailed, j + 1);
          return false, e;
        }
        e := e + [Event(Network.Service(iface, j), stats.counts[j].value - prev.counts[j].value)];
      }
      j := j + 1;
    }
    return true, e;
  }

  /** `collect!`: for each line after the two headers, parse it, skip an
      unselected interface, diff the reported FIELDS of a seen one, and store
      the line as the new baseline. */
  method Collect(interfaces: seq<string>, detailed: bool, last0: Network.Last, fileLines: seq<string>)
    returns (r: Outcome<Network.Last>)
    ensures r == Network.Collect(interfaces, detailed, last0, fileLines)
    ensures r.Done? && detailed ==> |r.events| % 16 == 0
    ensures r.Done? && !detailed ==> |r.events| % 4 == 0
  {
    var lines := Network.Body(fileLines);
    ghost var rows := Network.ParseAll(lines);
    var events: seq<Event> := [];
    var last := last0;
    var n := 0;
    while n < |lines|
      invariant 0 <= n <= |lines|
      invariant Network.CollectRows(interfaces, detailed, last0, rows[..n]) == Done(events, last)
    {
      var parsed := Network.ParseStats(lines[n]);
      assert parsed == rows[n];
      PrefixStep(interfaces, detailed, last0, rows, n, events, last);
      if parsed.None? {
        RaisedPrefix(interfaces, detailed, last0, rows, n + 1);
        return Raised(last);
      }
      var stats := parsed.value;
      if |interfaces| == 0 || stats.iface in interfaces {
        if stats.iface in last {
          var ok, e := FieldLoop(stats.iface, stats, last[stats.iface], detailed);
          if !ok {
            RaisedPrefix(interfaces, detailed, last0, rows, n + 1);
            return Raised(last);
          }
          events := events + e;
        }
        last := last[stats.iface := stats];
      }
      n := n + 1;
    }
    assert rows[..n] == rows;
    Network.EventGroups(interfaces, detailed, last0, rows);
    return Done(events, last);
  }
}
