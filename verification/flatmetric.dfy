/** `Solanum::Metrics::Metric` of lib/solanum/metrics/metric.rb: values keyed
    by unit, and the time of the last update.  `Time.now` is the parameter
    `now`. */
module FlatMetric {
  import opened Wrappers
  import opened Symbols

  /** The values hash (a key may hold nil) and the time of the last record. */
  datatype Metric = Metric(values: map<Sym, Option<real>>, time: real)

  /** `Metric.new`: no values, stamped with the current time. */
  function New(now: real): (m: Metric)
    ensures |m.values| == 0 && m.time == now
  {
    Metric(map[], now)
  }

  /** `value_key(unit)`: nil means the unit `:1`; a String is interned. */
  function ValueKey(u: UnitArg): (k: Sym)
    ensures u.SymUnit? ==> k == u.sym
    ensures !u.SymUnit? ==> k.name == (if u.StrUnit? then u.s else "1")
  {
    match u
    case NoUnit => Sym("1")
    case StrUnit(s) => Sym(s)
    case SymUnit(y) => y
  }

  /** A String unit and the Symbol of the same name address the same value,
      and nil addresses the value of unit `"1"`. */
  lemma UnitSpellings(s: string)
    ensures ValueKey(StrUnit(s)) == ValueKey(SymUnit(Sym(s)))
    ensures ValueKey(NoUnit) == ValueKey(StrUnit("1"))
  {
  }

  /** `value(unit)`: the stored value, nil when none (or nil) is stored. */
  function Value(m: Metric, u: UnitArg): (r: Option<real>)
    ensures ValueKey(u) !in m.values ==> r.None?
    ensures ValueKey(u) in m.values ==> r == m.values[ValueKey(u)]
  {
    var k := ValueKey(u);
    if k in m.values then m.values[k] else None
  }

  /** `units`: the units with a stored entry (the program lists them in
      insertion order; the model keeps the set). */
  function Units(m: Metric): (r: set<Sym>)
    ensures forall u :: ValueKey(u) !in r ==> Value(m, u).None?
    ensures forall u :: Value(m, u).Some? ==> ValueKey(u) in r
    ensures forall k :: k in r ==> k in m.values && Value(m, SymUnit(k)) == m.values[k]
  {
    m.values.Keys
  }

  /** `clear`: every value is removed; the time stays. */
  function Clear(m: Metric): (r: Metric)
    ensures |r.values| == 0 && r.time == m.time
    ensures forall u :: Value(r, u).None?
  {
    Metric(map[], m.time)
  }

  /** `record(new_value, unit)` as written: the guard tests the metric's
      current default-unit value instead of the new value, so nothing is
      recorded unless a default-unit value already exists. */
  function RecordAsWritten(m: Metric, v: Option<real>, u: UnitArg, now: real): (r: Metric)
    ensures Value(m, NoUnit).None? ==> r == m
    ensures Value(m, NoUnit).Some? ==> Value(r, u) == v && r.time == now
  {
    if Value(m, NoUnit).None? then m
    else Metric(m.values[ValueKey(u) := v], now)
  }

  /** `record(new_value, unit)` as evidently intended: a nil value is
      ignored; otherwise it is stored under its unit and the time updated. */
  function Record(m: Metric, v: Option<real>, u: UnitArg, now: real): (r: Metric)
    ensures v.None? ==> r == m
    ensures v.Some? ==> Value(r, u) == v && r.time == now
    ensures v.Some? ==> Units(r) == Units(m) + {ValueKey(u)}
    ensures forall w :: ValueKey(w) != ValueKey(u) ==> Value(r, w) == Value(m, w)
  {
    if v.None? then m
    else Metric(m.values[ValueKey(u) := v], now)
  }

  /** The rate between two readings: `scale * dv / dt`, nil when no time passed. */
  function Rate(before: real, after: real, dt: real, scale: real): (r: Option<real>)
    ensures r.Some? <==> dt > 0.0
    ensures r.Some? ==> r.value * dt == scale * (after - before)
    ensures dt > 0.0 ==> r == Some(scale * (after - before) / dt)
  {
    if dt > 0.0 then Some(scale * (after - before) / dt) else None
  }

  /** `record_rate(rate_unit, new_value, unit, scale)` on top of the intended
      `record`. */
  function RecordRate(m: Metric, rateUnit: UnitArg, v: Option<real>, u: UnitArg, scale: real, now: real): (r: Metric)
    ensures v.None? ==> r == m
    ensures v.Some? ==> Value(r, u) == v && r.time == now
    ensures v.Some? && ValueKey(rateUnit) != ValueKey(u) ==>
      Value(r, rateUnit) ==
        if Value(m, u).Some? && now - m.time > 0.0
        then Some(scale * (v.value - Value(m, u).value) / (now - m.time))
        else Value(m, rateUnit)
    ensures forall w :: ValueKey(w) != ValueKey(u) && ValueKey(w) != ValueKey(rateUnit) ==> Value(r, w) == Value(m, w)
  {
    if v.None? then m
    else
      var last := Value(m, u);
      var withRate := if last.Some? then Record(m, Rate(last.value, v.value, now - m.time, scale), rateUnit, now) else m;
      var r := Record(withRate, v, u, now);
      assert ValueKey(rateUnit) != ValueKey(u) ==> Value(r, rateUnit) == Value(withRate, rateUnit);
      assert last.Some? && now - m.time > 0.0 ==>
        Value(withRate, rateUnit) == Rate(last.value, v.value, now - m.time, scale);
      r
  }

  /** `record_rate` on top of `record` as written. */
  function RecordRateAsWritten(m: Metric, rateUnit: UnitArg, v: Option<real>, u: UnitArg, scale: real, now: real): (r: Metric)
    ensures Value(m, NoUnit).None? ==> r == m
  {
    if v.None? then m
    else
      var withRate :=
        match Value(m, u)
        case None => m
        case Some(last) => RecordAsWritten(m, Rate(last, v.value, now - m.time, scale), rateUnit, now);
      RecordAsWritten(withRate, v, u, now)
  }

  /** The operations a caller can apply to a metric. */
  datatype Op =
    | RecordOp(v: Option<real>, u: UnitArg, now: real)
    | RecordRateOp(rateUnit: UnitArg, v: Option<real>, u: UnitArg, scale: real, now: real)
    | ClearOp

  function ApplyAsWritten(m: Metric, ops: seq<Op>): Metric
    decreases |ops|
  {
    if |ops| == 0 then m
    else
      var next := match ops[0]
        case RecordOp(v, u, now) => RecordAsWritten(m, v, u, now)
        case RecordRateOp(ru, v, u, scale, now) => RecordRateAsWritten(m, ru, v, u, scale, now)
        case ClearOp => Clear(m);
      ApplyAsWritten(next, ops[1..])
  }

  function Apply(m: Metric, ops: seq<Op>): Metric
    decreases |ops|
  {
    if |ops| == 0 then m
    else
      var next := match ops[0]
        case RecordOp(v, u, now) => Record(m, v, u, now)
        case RecordRateOp(ru, v, u, scale, now) => RecordRate(m, ru, v, u, scale, now)
        case ClearOp => Clear(m);
      Apply(next, ops[1..])
  }

  /** As written, a metric that starts empty stays empty whatever is done to
      it: every value it is asked for is nil. */
  lemma {:induction false} AsWrittenNeverRecords(m: Metric, ops: seq<Op>, u: UnitArg)
    requires |m.values| == 0
    ensures |ApplyAsWritten(m, ops).values| == 0
    ensures Value(ApplyAsWritten(m, ops), u).None?
    decreases |ops|
  {
    if |ops| > 0 {
      var next := match ops[0]
        case RecordOp(v, u, now) => RecordAsWritten(m, v, u, now)
        case RecordRateOp(ru, v, u, scale, now) => RecordRateAsWritten(m, ru, v, u, scale, now)
        case ClearOp => Clear(m);
      assert |next.values| == 0;
      AsWrittenNeverRecords(next, ops[1..], u);
    }
  }

  /** The smallest input that shows it: recording 1.0 on a new metric. */
  lemma FreshRecordDiffers(t0: real, now: real)
    ensures Value(ApplyAsWritten(New(t0), [RecordOp(Some(1.0), NoUnit, now)]), NoUnit) == None
    ensures Value(Apply(New(t0), [RecordOp(Some(1.0), NoUnit, now)]), NoUnit) == Some(1.0)
  {
    AsWrittenNeverRecords(New(t0), [RecordOp(Some(1.0), NoUnit, now)], NoUnit);
  }

  /** With the intended `record`, two readings one unit of time apart give a
      rate equal to their difference times the scale. */
  lemma RateAfterTwoReadings(t0: real, a: real, b: real, scale: real)
    ensures var m1 := RecordRate(New(t0), StrUnit("rate"), Some(a), NoUnit, scale, t0 + 1.0);
      var m2 := RecordRate(m1, StrUnit("rate"), Some(b), NoUnit, scale, t0 + 2.0);
      Value(m2, NoUnit) == Some(b) && Value(m2, StrUnit("rate")) == Some(scale * (b - a))
  {
    var m1 := RecordRate(New(t0), StrUnit("rate"), Some(a), NoUnit, scale, t0 + 1.0);
    assert ValueKey(StrUnit("rate")) != ValueKey(NoUnit) by {
      assert ValueKey(NoUnit).name == "1";
      assert ValueKey(StrUnit("rate")).name == "rate";
    }
    assert Value(m1, NoUnit) == Some(a) && m1.time == t0 + 1.0;
  }
}
