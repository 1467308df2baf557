/** What the counter-diff sources of lib/solanum/source/ and ruby/source/ share:
    the event they emit, and how one `collect!` call ends. */
module Counters {
  import opened Wrappers

  /** An emitted event: `{service: ..., metric: ...}` with an integer delta. */
  datatype Event = Event(service: string, metric: int)

  /** A `collect!` call either returns its events, or raises part way through
      (a nil column in a subtraction); in both cases the baseline `@last` is
      what the lines processed so far left behind. */
  datatype Outcome<S> = Done(events: seq<Event>, last: S) | Raised(last: S)

  /** `current - last` of one counter; nil on either side makes Ruby raise. */
  function Delta(current: Option<int>, previous: Option<int>): (r: Option<int>)
    ensures r.Some? <==> current.Some? && previous.Some?
    ensures r.Some? ==> r.value + previous.value == current.value
  {
    if current.Some? && previous.Some? then Some(current.value - previous.value) else None
  }

  /** Events emitted before an outcome, put in front of its own. */
  function Prepend<S>(e: seq<Event>, o: Outcome<S>): (r: Outcome<S>)
    ensures r.last == o.last && r.Done? == o.Done?
    ensures r.Done? ==> r.events == e + o.events
  {
    match o
    case Raised(l) => Raised(l)
    case Done(e2, l) => Done(e + e2, l)
  }

  /** Prepending twice is prepending the concatenation. */
  lemma PrependTwice<S>(e1: seq<Event>, e2: seq<Event>, o: Outcome<S>)
    ensures Prepend(e1, Prepend(e2, o)) == Prepend(e1 + e2, o)
  {
    if o.Done? {
      assert e1 + (e2 + o.events) == (e1 + e2) + o.events;
    }
  }
}
