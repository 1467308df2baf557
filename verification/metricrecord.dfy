/** `Solanum::Metrics::Record` of solanum/metrics/record.rb: one recorded
    time/value pair with an optional unit. */
module MetricRecord {
  import opened Wrappers
  import opened Symbols

  /** A recorded value: the extractors produce numbers or strings, and a
      loaded file may hold nil. */
  datatype Value = Nil | Num(n: real) | Str(s: string)

  datatype Record = Record(time: real, value: Value, unit: Option<Sym>)

  /** The unit normalisation of `Record#initialize`: nil stays nil, a Symbol
      is kept and a String is interned. */
  function NormalUnit(u: UnitArg): (r: Option<Sym>)
    ensures r.None? <==> u.NoUnit?
    ensures r.Some? ==> r.value.name == (if u.StrUnit? then u.s else u.sym.name)
  {
    match u
    case NoUnit => None
    case SymUnit(y) => Some(y)
    case StrUnit(s) => Some(Sym(s))
  }

  /** `Record.new(time, value, unit)`. */
  function New(time: real, value: Value, unit: UnitArg): (r: Record)
    ensures r.time == time && r.value == value
    ensures r.unit.None? <==> unit.NoUnit?
  {
    Record(time, value, NormalUnit(unit))
  }

  /** A stored unit passed back in as a unit argument. */
  function UnitArgOf(u: Option<Sym>): (r: UnitArg)
    ensures r.NoUnit? || r.SymUnit?
  {
    if u.None? then NoUnit else SymUnit(u.value)
  }

  /** A String unit and the Symbol of the same name give the same record. */
  lemma UnitSpellings(time: real, value: Value, s: string)
    ensures New(time, value, StrUnit(s)) == New(time, value, SymUnit(Sym(s)))
    ensures New(time, value, StrUnit(s)).unit == Some(Sym(s))
  {
  }

  /** Rebuilding a record from its own fields gives it back: the
      normalisation is the identity on normalised units. */
  lemma RebuildRecord(r: Record)
    ensures New(r.time, r.value, UnitArgOf(r.unit)) == r
  {
  }
}
