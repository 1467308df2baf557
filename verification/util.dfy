/** Helper functions of lib/solanum/util.rb: the two threshold classifiers
    `state_over` / `state_under` and the `duration_str` formatter. */
module Util {
  import opened Sorting
  import opened Text

  /** One `[state, breakpoint]` entry of a threshold table. */
  datatype Threshold = Threshold(state: string, limit: real)

  /** Sort key of `state_over`: `-e[1]`, i.e. largest breakpoint first. */
  function NegLimit(t: Threshold): real { -t.limit }

  /** Sort key of `state_under`: `e[1]`, i.e. smallest breakpoint first. */
  function Limit(t: Threshold): real { t.limit }

  // ---------------------------------------------------------------------------
  // state_over

  /** The scan of `state_over` over the sorted table: the first entry whose
      breakpoint is at most the metric, else the minimum state. */
  function ScanOver(sorted: seq<Threshold>, metric: real, minState: string): string {
    if |sorted| == 0 then minState
    else if sorted[0].limit <= metric then sorted[0].state
    else ScanOver(sorted[1..], metric, minState)
  }

  /** `state` is the label of an entry of `ts` whose breakpoint is the largest
      of those at most `metric`. */
  predicate LabelOfLargestAtMost(ts: seq<Threshold>, metric: real, state: string) {
    exists t :: t in ts && t.limit <= metric && state == t.state &&
      forall u :: u in ts && u.limit <= metric ==> u.limit <= t.limit
  }

  /** No breakpoint of `ts` is at most `metric`. */
  predicate AllAbove(ts: seq<Threshold>, metric: real) {
    forall t :: t in ts ==> metric < t.limit
  }

  /** Whatever order the unstable sort leaves equal breakpoints in, the scan
      picks a label of the largest breakpoint at most the metric. */
  lemma {:induction false} ScanOverAnySort(sorted: seq<Threshold>, metric: real, minState: string)
    requires SortedBy(sorted, NegLimit)
    ensures AllAbove(sorted, metric) ==> ScanOver(sorted, metric, minState) == minState
    ensures !AllAbove(sorted, metric) ==> LabelOfLargestAtMost(sorted, metric, ScanOver(sorted, metric, minState))
  {
    if |sorted| > 0 {
      var h := sorted[0];
      if h.limit <= metric {
        HeadLargestAtMost(sorted, metric);
      } else {
        SortedTail(sorted, NegLimit);
        ScanOverAnySort(sorted[1..], metric, minState);
        SkipAbove(sorted, metric, ScanOver(sorted[1..], metric, minState));
      }
    }
  }

  /** In a table sorted largest first, a head at most the metric is the
      largest breakpoint at most the metric. */
  lemma HeadLargestAtMost(sorted: seq<Threshold>, metric: real)
    requires SortedBy(sorted, NegLimit)
    requires |sorted| > 0 && sorted[0].limit <= metric
    ensures LabelOfLargestAtMost(sorted, metric, sorted[0].state)
  {
    var h := sorted[0];
    forall u | u in sorted && u.limit <= metric ensures u.limit <= h.limit {
      var j :| 0 <= j < |sorted| && sorted[j] == u;
      if j > 0 {
        assert NegLimit(sorted[0]) <= NegLimit(sorted[j]);
      }
    }
  }

  /** A head above the metric changes neither `AllAbove` nor the largest
      breakpoint at most the metric. */
  lemma SkipAbove(sorted: seq<Threshold>, metric: real, st: string)
    requires |sorted| > 0 && metric < sorted[0].limit
    ensures AllAbove(sorted, metric) <==> AllAbove(sorted[1..], metric)
    ensures LabelOfLargestAtMost(sorted[1..], metric, st) ==> LabelOfLargestAtMost(sorted, metric, st)
  {
    var rest := sorted[1..];
    assert sorted == [sorted[0]] + rest;
    if LabelOfLargestAtMost(rest, metric, st) {
      var t :| t in rest && t.limit <= metric && st == t.state &&
        forall u :: u in rest && u.limit <= metric ==> u.limit <= t.limit;
      assert t in sorted;
    }
  }

  /** `state_over(thresholds, metric, min_state)`: the label paired with the
      largest breakpoint that the metric reaches, or `min_state` when every
      breakpoint lies above the metric (in particular for an empty table). */
  function StateOver(thresholds: seq<Threshold>, metric: real, minState: string): (r: string)
    ensures AllAbove(thresholds, metric) ==> r == minState
    ensures !AllAbove(thresholds, metric) ==> LabelOfLargestAtMost(thresholds, metric, r)
  {
    var sorted := SortBy(thresholds, NegLimit);
    ScanOverAnySort(sorted, metric, minState);
    assert forall t :: t in sorted <==> t in thresholds by {
      assert forall t :: t in sorted <==> t in multiset(sorted);
      assert forall t :: t in thresholds <==> t in multiset(thresholds);
    }
    ScanOver(sorted, metric, minState)
  }

  // ---------------------------------------------------------------------------
  // state_under

  /** The scan of `state_under` over the sorted table: the first entry whose
      breakpoint is above the metric, else the maximum state. */
  function ScanUnder(sorted: seq<Threshold>, metric: real, maxState: string): string {
    if |sorted| == 0 then maxState
    else if sorted[0].limit > metric then sorted[0].state
    else ScanUnder(sorted[1..], metric, maxState)
  }

  /** `state` is the label of an entry of `ts` whose breakpoint is the smallest
      of those above `metric`. */
  predicate LabelOfSmallestAbove(ts: seq<Threshold>, metric: real, state: string) {
    exists t :: t in ts && metric < t.limit && state == t.state &&
      forall u :: u in ts && metric < u.limit ==> t.limit <= u.limit
  }

  /** No breakpoint of `ts` is above `metric`. */
  predicate AllAtMost(ts: seq<Threshold>, metric: real) {
    forall t :: t in ts ==> t.limit <= metric
  }

  lemma {:induction false} ScanUnderAnySort(sorted: seq<Threshold>, metric: real, maxState: string)
    requires SortedBy(sorted, Limit)
    ensures AllAtMost(sorted, metric) ==> ScanUnder(sorted, metric, maxState) == maxState
    ensures !AllAtMost(sorted, metric) ==> LabelOfSmallestAbove(sorted, metric, ScanUnder(sorted, metric, maxState))
  {
    if |sorted| > 0 {
      var h := sorted[0];
      if h.limit > metric {
        HeadSmallestAbove(sorted, metric);
      } else {
        SortedTail(sorted, Limit);
        ScanUnderAnySort(sorted[1..], metric, maxState);
        SkipAtMost(sorted, metric, ScanUnder(sorted[1..], metric, maxState));
      }
    }
  }

  /** In a table sorted smallest first, a head above the metric is the
      smallest breakpoint above the metric. */
  lemma HeadSmallestAbove(sorted: seq<Threshold>, metric: real)
    requires SortedBy(sorted, Limit)
    requires |sorted| > 0 && metric < sorted[0].limit
    ensures LabelOfSmallestAbove(sorted, metric, sorted[0].state)
  {
    var h := sorted[0];
    forall u | u in sorted && metric < u.limit ensures h.limit <= u.limit {
      var j :| 0 <= j < |sorted| && sorted[j] == u;
      if j > 0 {
        assert Limit(sorted[0]) <= Limit(sorted[j]);
      }
    }
  }

  /** A head at most the metric changes neither `AllAtMost` nor the smallest
      breakpoint above the metric. */
  lemma SkipAtMost(sorted: seq<Threshold>, metric: real, st: string)
    requires |sorted| > 0 && sorted[0].limit <= metric
    ensures AllAtMost(sorted, metric) <==> AllAtMost(sorted[1..], metric)
    ensures LabelOfSmallestAbove(sorted[1..], metric, st) ==> LabelOfSmallestAbove(sorted, metric, st)
  {
    var rest := sorted[1..];
    assert sorted == [sorted[0]] + rest;
    if LabelOfSmallestAbove(rest, metric, st) {
      var t :| t in rest && metric < t.limit && st == t.state &&
        forall u :: u in rest && metric < u.limit ==> t.limit <= u.limit;
      assert t in sorted;
    }
  }

  /** `state_under(thresholds, metric, max_state)`: the label paired with the
      smallest breakpoint strictly above the metric, or `max_state` when no
      breakpoint lies above the metric. */
  function StateUnder(thresholds: seq<Threshold>, metric: real, maxState: string): (r: string)
    ensures AllAtMost(thresholds, metric) ==> r == maxState
    ensures !AllAtMost(thresholds, metric) ==> LabelOfSmallestAbove(thresholds, metric, r)
  {
    var sorted := SortBy(thresholds, Limit);
    ScanUnderAnySort(sorted, metric, maxState);
    assert forall t :: t in sorted <==> t in thresholds by {
      assert forall t :: t in sorted <==> t in multiset(sorted);
      assert forall t :: t in thresholds <==> t in multiset(thresholds);
    }
    ScanUnder(sorted, metric, maxState)
  }

  /** A metric exactly on a breakpoint takes that breakpoint's label in
      `state_over` (`<=`) but not in `state_under` (`>`). */
  lemma BreakpointBoundary(lbl: string, limit: real, dflt: string)
    ensures StateOver([Threshold(lbl, limit)], limit, dflt) == lbl
    ensures StateUnder([Threshold(lbl, limit)], limit, dflt) == dflt
  {
    assert !AllAbove([Threshold(lbl, limit)], limit);
    assert AllAtMost([Threshold(lbl, limit)], limit);
  }

  /** `state_over` examples: a warning at 50, a critical at 80. */
  lemma StateOverExamples(v: real)
    ensures 80.0 <= v ==> StateOver([Threshold("warning", 50.0), Threshold("critical", 80.0)], v, "ok") == "critical"
    ensures 50.0 <= v < 80.0 ==> StateOver([Threshold("warning", 50.0), Threshold("critical", 80.0)], v, "ok") == "warning"
    ensures v < 50.0 ==> StateOver([Threshold("warning", 50.0), Threshold("critical", 80.0)], v, "ok") == "ok"
  {
    var ts := [Threshold("warning", 50.0), Threshold("critical", 80.0)];
    var r := StateOver(ts, v, "ok");
    assert forall t :: t in ts ==> t == ts[0] || t == ts[1];
    if 50.0 <= v {
      assert ts[0] in ts;
      var t :| t in ts && t.limit <= v && r == t.state &&
        forall u :: u in ts && u.limit <= v ==> u.limit <= t.limit;
      assert ts[1] in ts;
    }
  }

  /** `state_under` examples: a warning at 10, a critical at 5. */
  lemma StateUnderExamples(v: real)
    ensures v < 5.0 ==> StateUnder([Threshold("warning", 10.0), Threshold("critical", 5.0)], v, "ok") == "critical"
    ensures 5.0 <= v < 10.0 ==> StateUnder([Threshold("warning", 10.0), Threshold("critical", 5.0)], v, "ok") == "warning"
    ensures 10.0 <= v ==> StateUnder([Threshold("warning", 10.0), Threshold("critical", 5.0)], v, "ok") == "ok"
  {
    var ts := [Threshold("warning", 10.0), Threshold("critical", 5.0)];
    var r := StateUnder(ts, v, "ok");
    assert forall t :: t in ts ==> t == ts[0] || t == ts[1];
    if v < 10.0 {
      assert ts[0] in ts;
      var t :| t in ts && v < t.limit && r == t.state &&
        forall u :: u in ts && v < u.limit ==> t.limit <= u.limit;
      assert ts[1] in ts;
    }
  }

  // ---------------------------------------------------------------------------
  // duration_str

  /** Ruby `Float#to_i`: truncation toward zero. */
  function Trunc(x: real): (n: int)
    ensures x >= 0.0 ==> n == x.Floor
  {
    if x >= 0.0 then x.Floor else -((-x).Floor)
  }

  /** The three moduli `duration_str` uses: a minute, an hour and a day. */
  predicate IsTimeUnit(m: int) { m == 60 || m == 3600 || m == 86400 }

  /** Ruby `x % m` on a float and a positive modulus: the remainder of floor division. */
  function FMod(x: real, m: int): real
    requires m > 0
  {
    x - m as real * (x / m as real).Floor as real
  }

  /** For a time unit, the float quotient's floor is the floor's integer quotient,
      and the float remainder has the floor's remainder as its whole part. */
  lemma UnitQuotient(x: real, m: int)
    requires IsTimeUnit(m)
    ensures (x / m as real).Floor == x.Floor / m
    ensures FMod(x, m).Floor == x.Floor % m
    ensures 0.0 <= FMod(x, m) < m as real
  {
    if m == 60 {
    } else if m == 3600 {
    } else {
    }
  }

  /** The components `duration_str` computes: days, hours, minutes, seconds. */
  datatype Parts = Parts(days: int, hours: nat, minutes: nat, seconds: nat)

  function DurationParts(duration: real): (p: Parts)
    ensures p.hours < 24 && p.minutes < 60 && p.seconds < 60
  {
    var h := FMod(duration, 86400) / 3600.0;
    var m := FMod(duration, 3600) / 60.0;
    var s := FMod(duration, 60);
    UnitQuotient(duration, 86400);
    UnitQuotient(duration, 3600);
    UnitQuotient(duration, 60);
    UnitQuotient(FMod(duration, 86400), 3600);
    UnitQuotient(FMod(duration, 3600), 60);
    Parts(Trunc(duration / 86400.0), Trunc(h), Trunc(m), Trunc(s))
  }

  /** Euclidean division is unique. */
  lemma DivModUnique(n: int, b: int, q: int, r: int)
    requires b > 0 && n == q * b + r && 0 <= r < b
    ensures n / b == q && n % b == r
  {
    var q' := n / b;
    var r' := n % b;
    assert n == q' * b + r';
    assert (q - q') * b == q * b - q' * b;
    assert (q - q') * b == r' - r;
    ZeroMultiple(q - q', b);
  }

  lemma ZeroMultiple(k: int, b: int)
    requires b > 0 && -b < k * b < b
    ensures k == 0
  {
  }

  /** Reducing modulo a multiple of `b` first does not change the remainder mod `b`. */
  lemma ModOfMod(n: int, k: int, b: int)
    requires k > 0 && b > 0
    ensures (n % (k * b)) % b == n % b
  {
    var a := n % (k * b);
    var Q := n / (k * b);
    assert n == Q * (k * b) + a;
    assert n == (Q * k + a / b) * b + a % b by {
      assert a == (a / b) * b + a % b;
      assert Q * (k * b) == (Q * k) * b;
    }
    DivModUnique(n, b, Q * k + a / b, a % b);
  }

  lemma WholeSecondsDecomposition(n: int)
    ensures (n % 86400) / 3600 * 3600 + (n % 3600) / 60 * 60 + n % 60 == n % 86400
  {
    var a := n % 86400;
    ModOfMod(n, 24, 3600);
    assert a % 3600 == n % 3600;
    var b := n % 3600;
    ModOfMod(n, 60, 60);
    assert b % 60 == n % 60;
    assert a == a / 3600 * 3600 + a % 3600;
    assert b == b / 60 * 60 + b % 60;
  }

  /** Hours, minutes and seconds together spell out the whole seconds of the
      duration modulo a day; for a non-negative duration the days supply the
      rest, so the components add back up to the whole seconds. */
  lemma {:induction false} DurationDecomposition(duration: real)
    ensures var p := DurationParts(duration);
      p.hours * 3600 + p.minutes * 60 + p.seconds == duration.Floor % 86400
    ensures var p := DurationParts(duration);
      duration >= 0.0 ==> p.days >= 0 && p.days * 86400 + p.hours * 3600 + p.minutes * 60 + p.seconds == duration.Floor
  {
    var n := duration.Floor;
    PartsOfWholeSeconds(duration);
    WholeSecondsDecomposition(n);
    if duration >= 0.0 {
      assert n == n / 86400 * 86400 + n % 86400;
    }
  }

  /** Each component is read off the whole seconds of the duration. */
  lemma PartsOfWholeSeconds(duration: real)
    ensures DurationParts(duration).hours == (duration.Floor % 86400) / 3600
    ensures DurationParts(duration).minutes == (duration.Floor % 3600) / 60
    ensures DurationParts(duration).seconds == duration.Floor % 60
    ensures duration >= 0.0 ==> DurationParts(duration).days == duration.Floor / 86400
  {
    assert DurationParts(duration).hours == (duration.Floor % 86400) / 3600 by {
      UnitQuotient(duration, 86400);
      UnitQuotient(FMod(duration, 86400), 3600);
    }
    assert DurationParts(duration).minutes == (duration.Floor % 3600) / 60 by {
      UnitQuotient(duration, 3600);
      UnitQuotient(FMod(duration, 3600), 60);
    }
    assert DurationParts(duration).seconds == duration.Floor % 60 by {
      UnitQuotient(duration, 60);
    }
    if duration >= 0.0 {
      UnitQuotient(duration, 86400);
    }
  }

  /** `"%02d:%02d:%02d" % [hours, minutes, seconds]`. */
  function Hms(p: Parts): (r: string)
    requires p.hours < 100 && p.minutes < 100 && p.seconds < 100
    ensures |r| == 8 && r[2] == ':' && r[5] == ':'
  {
    Pad2(p.hours) + ":" + Pad2(p.minutes) + ":" + Pad2(p.seconds)
  }

  /** `duration_str(duration)`. */
  function DurationStr(duration: real): (r: string)
    ensures var p := DurationParts(duration);
      && |r| >= 8
      && r[|r| - 6] == ':' && r[|r| - 3] == ':'
      && AllDigits(r[|r| - 8..|r| - 6]) && DigitsValue(r[|r| - 8..|r| - 6]) == p.hours
      && AllDigits(r[|r| - 5..|r| - 3]) && DigitsValue(r[|r| - 5..|r| - 3]) == p.minutes
      && AllDigits(r[|r| - 2..]) && DigitsValue(r[|r| - 2..]) == p.seconds
    ensures var p := DurationParts(duration);
      p.days <= 0 ==> |r| == 8
    ensures var p := DurationParts(duration);
      p.days > 0 ==> && |r| > 15
                     && r[|r| - 15..|r| - 8] == " days, "
                     && AllDigits(r[..|r| - 15]) && DigitsValue(r[..|r| - 15]) == p.days
                     && r[0] != '0'
  {
    var p := DurationParts(duration);
    var hms := Hms(p);
    assert hms[0..2] == Pad2(p.hours);
    assert hms[3..5] == Pad2(p.minutes);
    assert hms[6..] == Pad2(p.seconds);
    if 0 < p.days then
      var d := NatToString(p.days);
      NatToStringValue(p.days);
      var r := d + " days, " + hms;
      assert r[..|r| - 15] == d;
      assert r[|r| - 15..|r| - 8] == " days, ";
      assert r[|r| - 8..] == hms;
      assert r[|r| - 8..|r| - 6] == hms[0..2];
      assert r[|r| - 5..|r| - 3] == hms[3..5];
      assert r[|r| - 2..] == hms[6..];
      r
    else
      hms
  }
}
