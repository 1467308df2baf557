/** Ruby symbols and the unit arguments both metric collections accept. */
module Symbols {

  /** A Ruby symbol, identified by its name (`:foo` is `Sym("foo")`). */
  datatype Sym = Sym(name: string)

  /** A unit argument as callers pass it: nil, a String or a Symbol. */
  datatype UnitArg = NoUnit | StrUnit(s: string) | SymUnit(sym: Sym)
}
