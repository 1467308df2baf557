/** The agent object of lib/solanum.rb: one collection pass over all sources
    (`collect!`) and the turning of collected metrics into events
    (`build_events`).  Sources and service definitions come from loaded
    configuration and are parameters here. */
module Agent {
  import opened Wrappers
  import Order

  /** A metrics hash: service name to numeric value. */
  type Metrics = map<string, real>

  /** What `source.collect(metrics)` did: returned a hash, returned nil, or raised. */
  datatype SourceResult = Returned(metrics: Metrics) | ReturnedNil | Raised

  /** A source, as the function from the metrics collected so far to its result. */
  type Source = Metrics -> SourceResult

  /** The agent's two metric snapshots: the latest pass and the one before. */
  datatype Agent = Agent(metrics: Metrics, oldMetrics: Metrics)

  /** Before the first pass both snapshots are empty.  (The program leaves
      the older one unset, but `build_events` only reads it for keys of the
      newer one, which is empty until the first pass.) */
  function Start(): (a: Agent)
    ensures |a.metrics| == 0 && |a.oldMetrics| == 0
  {
    Agent(map[], map[])
  }

  /** One step of the `reduce` in `collect!`: nil counts as an empty hash,
      and a raising source is reported and skipped. */
  function CollectStep(acc: Metrics, source: Source): Metrics {
    match source(acc)
    case Returned(m) => acc + m
    case ReturnedNil => acc + map[]
    case Raised => acc
  }

  function CollectFold(sources: seq<Source>, acc: Metrics): Metrics
    decreases |sources|
  {
    if |sources| == 0 then acc
    else CollectFold(sources[1..], CollectStep(acc, sources[0]))
  }

  /** `collect!`: the previous snapshot becomes the old one and a new
      snapshot is folded over the sources in order, starting empty. */
  function Collect(a: Agent, sources: seq<Source>): (r: Agent)
    ensures r.oldMetrics == a.metrics
    ensures forall k :: k in r.metrics ==> exists i :: 0 <= i < |sources| && ContributedBy(sources, i, k)
    ensures forall i, k :: 0 <= i < |sources| && ContributedBy(sources, i, k) ==> k in r.metrics
    ensures forall k :: k in r.metrics ==> exists i :: 0 <= i < |sources| && LastContribution(sources, i, k, r.metrics[k])
  {
    CollectKeysFromSources(sources, map[]);
    LastContributorWins(sources);
    Agent(CollectFold(sources, map[]), a.metrics)
  }

  /** Source `i`, given what the sources before it collected, returned a hash
      containing `k`. */
  ghost predicate ContributedBy(sources: seq<Source>, i: int, k: string)
    requires 0 <= i < |sources|
  {
    var before := CollectFold(sources[..i], map[]);
    sources[i](before).Returned? && k in sources[i](before).metrics
  }

  /** Source `i` returned `k` with value `v`, and no later source returned `k`. */
  ghost predicate LastContribution(sources: seq<Source>, i: int, k: string, v: real)
    requires 0 <= i < |sources|
  {
    && ContributedBy(sources, i, k)
    && sources[i](CollectFold(sources[..i], map[])).metrics[k] == v
    && forall j :: i < j < |sources| ==> !ContributedBy(sources, j, k)
  }

  /** Whether source `i` contributed `k` depends only on the sources up to it. */
  lemma ContributedPrefix(sources: seq<Source>, n: int, i: int, k: string)
    requires 0 <= i < n <= |sources|
    ensures ContributedBy(sources[..n], i, k) <==> ContributedBy(sources, i, k)
  {
    assert sources[..n][..i] == sources[..i];
  }

  /** A key the next source does not return keeps the value it had. */
  lemma SourceKeepsOthers(before: seq<Source>, s: Source, acc: Metrics, k: string)
    requires k in CollectFold(before, acc)
    requires !(s(CollectFold(before, acc)).Returned? && k in s(CollectFold(before, acc)).metrics)
    ensures k in CollectFold(before + [s], acc)
    ensures CollectFold(before + [s], acc)[k] == CollectFold(before, acc)[k]
  {
    CollectFoldAppend(before, [s], acc);
  }

  /** `merge` in source order: a pass holds exactly the keys some source
      returned, each with the value from the last source that returned it. */
  lemma {:induction false} LastContributorWins(sources: seq<Source>)
    ensures forall i, k :: 0 <= i < |sources| && ContributedBy(sources, i, k) ==> k in CollectFold(sources, map[])
    ensures forall k :: k in CollectFold(sources, map[]) ==>
      exists i :: 0 <= i < |sources| && LastContribution(sources, i, k, CollectFold(sources, map[])[k])
    decreases |sources|
  {
    if |sources| > 0 {
      var n := |sources| - 1;
      var init := sources[..n];
      var s := sources[n];
      assert sources == init + [s];
      LastContributorWins(init);
      var before := CollectFold(init, map[]);
      var after := CollectFold(sources, map[]);
      CollectFoldAppend(init, [s], map[]);
      assert after == CollectStep(before, s);
      forall i, k | 0 <= i < |sources| && ContributedBy(sources, i, k)
        ensures k in after
      {
        if i < n {
          ContributedPrefix(sources, n, i, k);
          assert k in before;
        }
      }
      forall k | k in after
        ensures exists i :: 0 <= i < |sources| && LastContribution(sources, i, k, after[k])
      {
        if s(before).Returned? && k in s(before).metrics {
          assert ContributedBy(sources, n, k);
          assert LastContribution(sources, n, k, after[k]);
        } else {
          assert k in before && after[k] == before[k];
          var i :| 0 <= i < n && LastContribution(init, i, k, before[k]);
          ContributedPrefix(sources, n, i, k);
          assert init[..i] == sources[..i];
          forall j | i < j < |sources|
            ensures !ContributedBy(sources, j, k)
          {
            if j < n {
              ContributedPrefix(sources, n, j, k);
            }
          }
          assert LastContribution(sources, i, k, after[k]);
        }
      }
    }
  }

  lemma {:induction false} CollectFoldAppend(a: seq<Source>, b: seq<Source>, acc: Metrics)
    ensures CollectFold(a + b, acc) == CollectFold(b, CollectFold(a, acc))
  {
    if |a| == 0 {
      assert a + b == b;
    } else {
      assert (a + b)[1..] == a[1..] + b;
      CollectFoldAppend(a[1..], b, CollectStep(acc, a[0]));
    }
  }

  /** Every key of a pass comes from the starting hash or from some source. */
  lemma {:induction false} CollectKeysFromSources(sources: seq<Source>, acc: Metrics)
    requires |acc| == 0
    ensures forall k :: k in CollectFold(sources, acc) ==> exists i :: 0 <= i < |sources| && ContributedBy(sources, i, k)
    decreases |sources|
  {
    if |sources| > 0 {
      var n := |sources| - 1;
      var init := sources[..n];
      assert sources == init + [sources[n]];
      assert init[..n] == init;
      CollectFoldAppend(init, [sources[n]], acc);
      CollectKeysFromSources(init, acc);
      assert acc == map[];
      forall k | k in CollectFold(sources, acc)
        ensures exists i :: 0 <= i < |sources| && ContributedBy(sources, i, k)
      {
        var before := CollectFold(init, acc);
        assert CollectFold([sources[n]], before) == CollectStep(before, sources[n]);
        if k in before {
          var i :| 0 <= i < n && ContributedBy(init, i, k);
          assert init[..i] == sources[..i];
          assert ContributedBy(sources, i, k);
        } else {
          assert sources[..n] == init;
          assert ContributedBy(sources, n, k);
        }
      }
    }
  }

  /** A source that raises contributes nothing: the pass equals the pass
      without it. */
  lemma RaisingSourceSkipped(before: seq<Source>, s: Source, after: seq<Source>, acc: Metrics)
    requires s(CollectFold(before, acc)).Raised?
    ensures CollectFold(before + [s] + after, acc) == CollectFold(before + after, acc)
  {
    CollectFoldAppend(before + [s], after, acc);
    CollectFoldAppend(before, [s], acc);
    CollectFoldAppend(before, after, acc);
  }

  /** A source that returns nil contributes nothing either. */
  lemma NilSourceSkipped(before: seq<Source>, s: Source, after: seq<Source>, acc: Metrics)
    requires s(CollectFold(before, acc)).ReturnedNil?
    ensures CollectFold(before + [s] + after, acc) == CollectFold(before + after, acc)
  {
    CollectFoldAppend(before + [s], after, acc);
    CollectFoldAppend(before, [s], acc);
    CollectFoldAppend(before, after, acc);
    assert CollectFold(before, acc) + map[] == CollectFold(before, acc);
  }

  /** Keys collected so far are never lost by later sources. */
  lemma {:induction false} CollectKeepsKeys(sources: seq<Source>, acc: Metrics)
    ensures acc.Keys <= CollectFold(sources, acc).Keys
    decreases |sources|
  {
    if |sources| > 0 {
      CollectKeepsKeys(sources[1..], CollectStep(acc, sources[0]));
    }
  }

  /** For a key returned by the last source, its value wins. */
  lemma LastSourceWins(before: seq<Source>, s: Source, acc: Metrics, k: string)
    requires s(CollectFold(before, acc)).Returned?
    requires k in s(CollectFold(before, acc)).metrics
    ensures k in CollectFold(before + [s], acc)
    ensures CollectFold(before + [s], acc)[k] == s(CollectFold(before, acc)).metrics[k]
  {
    CollectFoldAppend(before, [s], acc);
  }

  // ---------------------------------------------------------------------------
  // Service prototypes

  /** A key of a prototype hash: absent, present with nil, or holding a value. */
  datatype Field<T> = Unset | Nil | Val(v: T)

  /** `Hash#merge` on one key: the right-hand hash wins whenever it has the key. */
  function Override<T>(a: Field<T>, b: Field<T>): Field<T> {
    if b.Unset? then a else b
  }

  /** Merging a sequence of hashes from `{}` onward. */
  function OverrideAll<T>(fs: seq<Field<T>>): (r: Field<T>)
    decreases |fs|
  {
    if |fs| == 0 then Unset
    else Override(OverrideAll(fs[..|fs| - 1]), fs[|fs| - 1])
  }

  /** The merged value is the one from the last hash that has the key. */
  lemma {:induction false} OverrideAllLast<T>(fs: seq<Field<T>>)
    ensures OverrideAll(fs).Unset? <==> forall i :: 0 <= i < |fs| ==> fs[i].Unset?
    ensures forall i :: 0 <= i < |fs| && !fs[i].Unset? && (forall j :: i < j < |fs| ==> fs[j].Unset?) ==>
      OverrideAll(fs) == fs[i]
    decreases |fs|
  {
    if |fs| > 0 {
      var init := fs[..|fs| - 1];
      OverrideAllLast(init);
      assert forall i :: 0 <= i < |init| ==> init[i] == fs[i];
    }
  }

  /** The prototype keys `build_events` reads.  A state function is given
      with its result already converted by `to_s`. */
  datatype Proto = Proto(state: Field<real -> string>, tags: Field<seq<string>>, ttl: Field<real>, diff: Field<bool>)

  /** `{}.merge(p1).merge(p2)...`, key by key. */
  function MergeAll(ps: seq<Proto>): (r: Proto)
    ensures r.ttl == OverrideAll(seq(|ps|, i requires 0 <= i < |ps| => ps[i].ttl))
    ensures r.tags == OverrideAll(seq(|ps|, i requires 0 <= i < |ps| => ps[i].tags))
    ensures r.diff == OverrideAll(seq(|ps|, i requires 0 <= i < |ps| => ps[i].diff))
    ensures r.state == OverrideAll(seq(|ps|, i requires 0 <= i < |ps| => ps[i].state))
    decreases |ps|
  {
    if |ps| == 0 then Proto(Unset, Unset, Unset, Unset)
    else
      var init := ps[..|ps| - 1];
      var a := MergeAll(init);
      var b := ps[|ps| - 1];
      assert seq(|ps|, i requires 0 <= i < |ps| => ps[i].ttl)[..|ps| - 1] == seq(|init|, i requires 0 <= i < |init| => init[i].ttl);
      assert seq(|ps|, i requires 0 <= i < |ps| => ps[i].tags)[..|ps| - 1] == seq(|init|, i requires 0 <= i < |init| => init[i].tags);
      assert seq(|ps|, i requires 0 <= i < |ps| => ps[i].diff)[..|ps| - 1] == seq(|init|, i requires 0 <= i < |init| => init[i].diff);
      assert seq(|ps|, i requires 0 <= i < |ps| => ps[i].state)[..|ps| - 1] == seq(|init|, i requires 0 <= i < |init| => init[i].state);
      Proto(Override(a.state, b.state), Override(a.tags, b.tags), Override(a.ttl, b.ttl), Override(a.diff, b.diff))
  }

  /** A service definition: a matcher (`m[0] === service`) and a prototype. */
  datatype Service = Service(matches: string -> bool, proto: Proto)

  /** The prototypes of the definitions whose matcher accepts `service`, in order. */
  function Selected(services: seq<Service>, service: string): (r: seq<Proto>)
    ensures |r| <= |services|
    ensures forall p :: p in r <==> exists i :: 0 <= i < |services| && services[i].matches(service) && services[i].proto == p
    decreases |services|
  {
    if |services| == 0 then []
    else
      var rest := Selected(services[1..], service);
      assert forall i :: 1 <= i < |services| ==> services[i] == services[1..][i - 1];
      if services[0].matches(service) then [services[0].proto] + rest
      else rest
  }

  /** One more definition at the end adds its prototype last, when its
      matcher accepts the service. */
  lemma {:induction false} SelectedSnoc(services: seq<Service>, s: Service, service: string)
    ensures Selected(services + [s], service) == Selected(services, service) + (if s.matches(service) then [s.proto] else [])
    decreases |services|
  {
    if |services| > 0 {
      assert (services + [s])[1..] == services[1..] + [s];
      SelectedSnoc(services[1..], s, service);
    } else {
      assert (services + [s])[1..] == [];
    }
  }

  /** `reduce({}, &:merge)` over the selected prototypes. */
  function Prototype(services: seq<Service>, service: string): Proto {
    MergeAll(Selected(services, service))
  }

  /** `a.merge(b)` on the prototype keys. */
  function MergeTwo(a: Proto, b: Proto): Proto {
    Proto(Override(a.state, b.state), Override(a.tags, b.tags), Override(a.ttl, b.ttl), Override(a.diff, b.diff))
  }

  /** A later matching definition is merged over the earlier ones; one that
      does not match changes nothing. */
  lemma PrototypeSnoc(services: seq<Service>, s: Service, service: string)
    ensures Prototype(services + [s], service) ==
      if s.matches(service) then MergeTwo(Prototype(services, service), s.proto) else Prototype(services, service)
  {
    SelectedSnoc(services, s, service);
    var sel := Selected(services, service);
    if s.matches(service) {
      assert (sel + [s.proto])[..|sel|] == sel;
    } else {
      assert sel + [] == sel;
    }
  }

  /** With no matching definition the prototype is empty: state ok, no
      tags of its own, default ttl, no diff. */
  lemma {:induction false} NoMatchEmptyPrototype(services: seq<Service>, service: string)
    requires forall i :: 0 <= i < |services| ==> !services[i].matches(service)
    ensures Prototype(services, service) == Proto(Unset, Unset, Unset, Unset)
    decreases |services|
  {
    if |services| > 0 {
      NoMatchEmptyPrototype(services[1..], service);
    }
  }

  // ---------------------------------------------------------------------------
  // Events

  /** The position of the first occurrence of `x`, searched from the front. */
  function FirstIndex(s: seq<string>, x: string): (k: nat)
    requires x in s
    ensures k < |s| && s[k] == x
    ensures forall j :: 0 <= j < k ==> s[j] != x
    decreases |s|
  {
    if s[0] == x then 0 else 1 + FirstIndex(s[1..], x)
  }

  /** Appending an element does not move the first occurrence of one
      already present. */
  lemma FirstIndexSnoc(s: seq<string>, y: string, x: string)
    requires x in s
    ensures FirstIndex(s + [y], x) == FirstIndex(s, x)
  {
    var k := FirstIndex(s, x);
    assert (s + [y])[k] == x;
  }

  /** `Array#uniq`: later duplicates removed, first occurrences kept in the
      order they first occur. */
  function Uniq(s: seq<string>): (r: seq<string>)
    ensures forall x :: x in r <==> x in s
    ensures NoDup(r)
    decreases |s|
  {
    if |s| == 0 then []
    else
      var init := s[..|s| - 1];
      var y := s[|s| - 1];
      var r := Uniq(init);
      assert s == init + [y];
      assert forall x :: x in s <==> x in init || x == y;
      if y in r then r else r + [y]
  }

  /** `uniq` keeps each tag where it first occurs: the survivors come in
      the order of their first occurrences in the input. */
  lemma {:induction false} UniqKeepsFirstOrder(s: seq<string>)
    ensures forall i, j :: 0 <= i < j < |Uniq(s)| ==> FirstIndex(s, Uniq(s)[i]) < FirstIndex(s, Uniq(s)[j])
    decreases |s|
  {
    if |s| > 0 {
      var init := s[..|s| - 1];
      var y := s[|s| - 1];
      var r := Uniq(init);
      assert s == init + [y];
      UniqKeepsFirstOrder(init);
      forall i | 0 <= i < |r|
        ensures FirstIndex(s, r[i]) == FirstIndex(init, r[i])
      {
        FirstIndexSnoc(init, y, r[i]);
      }
      if y !in r {
        assert y !in init;
        assert FirstIndex(s, y) == |init|;
        assert Uniq(s) == r + [y];
      } else {
        assert Uniq(s) == r;
      }
    }
  }


  predicate NoDup(s: seq<string>) {
    forall i, j :: 0 <= i < j < |s| ==> s[i] != s[j]
  }

  /** A duplicate-free tag list passes through `uniq` unchanged. */
  lemma {:induction false} UniqOfNoDup(s: seq<string>)
    requires NoDup(s)
    ensures Uniq(s) == s
    decreases |s|
  {
    if |s| > 0 {
      var init := s[..|s| - 1];
      var y := s[|s| - 1];
      assert NoDup(init) by {
        assert forall i :: 0 <= i < |init| ==> init[i] == s[i];
      }
      UniqOfNoDup(init);
      assert y !in Uniq(init) by {
        assert forall i :: 0 <= i < |init| ==> init[i] == s[i] && s[i] != y;
      }
      assert init + [y] == s;
    }
  }

  /** The keys `build_events` fills in; these override the same keys of the
      defaults hash. */
  const EventKeys: set<string> := {"service", "metric", "state", "tags", "ttl"}

  /** The defaults hash: its `tags` and `ttl` (absent or nil as `None`), and
      every other key. */
  datatype Defaults<A> = Defaults(attrs: map<string, A>, tags: Option<seq<string>>, ttl: Option<real>)

  /** An event: the defaults' other keys plus the five computed ones. */
  datatype Event<A> = Event(attrs: map<string, A>, service: string, metric: real, state: string,
                            tags: seq<string>, ttl: Option<real>)

  function Truthy(b: Field<bool>): bool { b == Val(true) }

  /** The event for one service, or none when a diffed service has no
      earlier value or its counter went backwards.  The state is computed
      from the collected value, before any diff is taken. */
  function EventFor<A>(metrics: Metrics, previous: Metrics, services: seq<Service>, defaults: Defaults<A>, service: string)
    : (r: Option<Event<A>>)
    ensures r.Some? <==> (service in metrics &&
      (!Truthy(Prototype(services, service).diff) || (service in previous && previous[service] <= metrics[service])))
    ensures r.Some? ==> r.value.service == service
  {
    if service !in metrics then None
    else
      var value := metrics[service];
      var p := Prototype(services, service);
      var state := if p.state.Val? then p.state.v(value) else "ok";
      var tags := Uniq((if p.tags.Val? then p.tags.v else []) + (if defaults.tags.Some? then defaults.tags.value else []));
      var ttl := if p.ttl.Val? then Some(p.ttl.v) else defaults.ttl;
      var emitted: Option<real> :=
        if Truthy(p.diff) then
          if service in previous && previous[service] <= value then Some(value - previous[service]) else None
        else Some(value);
      match emitted
      case None => None
      case Some(v) => Some(Event(defaults.attrs - EventKeys, service, v, state, tags, ttl))
  }

  /** What an emitted event holds: the value (diffed against the previous
      pass when the prototype says so), the state of the undiffed value,
      `ok` without a state function, the union of prototype and default tags
      without duplicates, the prototype's ttl over the default one, and the
      defaults' other keys. */
  lemma EventForContents<A>(metrics: Metrics, previous: Metrics, services: seq<Service>, defaults: Defaults<A>, service: string)
    requires EventFor(metrics, previous, services, defaults, service).Some?
    ensures var e := EventFor(metrics, previous, services, defaults, service).value;
      var p := Prototype(services, service);
      && e.metric == (if Truthy(p.diff) then metrics[service] - previous[service] else metrics[service])
      && e.state == (if p.state.Val? then p.state.v(metrics[service]) else "ok")
      && e.ttl == (if p.ttl.Val? then Some(p.ttl.v) else defaults.ttl)
      && (forall t :: t in e.tags <==> (p.tags.Val? && t in p.tags.v) || (defaults.tags.Some? && t in defaults.tags.value))
      && NoDup(e.tags)
      && e.attrs.Keys == defaults.attrs.Keys - EventKeys
      && forall k :: k in e.attrs ==> e.attrs[k] == defaults.attrs[k]
    // the tags keep first-occurrence order: the prototype's tags, then the defaults'
    ensures var e := EventFor(metrics, previous, services, defaults, service).value;
      var p := Prototype(services, service);
      var all := (if p.tags.Val? then p.tags.v else []) + (if defaults.tags.Some? then defaults.tags.value else []);
      forall i, j :: 0 <= i < j < |e.tags| ==> FirstIndex(all, e.tags[i]) < FirstIndex(all, e.tags[j])
  {
    var p := Prototype(services, service);
    UniqKeepsFirstOrder((if p.tags.Val? then p.tags.v else []) + (if defaults.tags.Some? then defaults.tags.value else []));
  }

  /** What `build_events` works from: the two snapshots, the service
      definitions and the defaults hash. */
  datatype Inputs<A> = Inputs(metrics: Metrics, previous: Metrics, services: seq<Service>, defaults: Defaults<A>)

  function EventOf<A>(c: Inputs<A>, service: string): (r: Option<Event<A>>)
    ensures r.Some? ==> r.value.service == service
  {
    EventFor(c.metrics, c.previous, c.services, c.defaults, service)
  }

  /** `keys.map { ... }.compact`. */
  function EventsOf<A>(c: Inputs<A>, keys: seq<string>): seq<Event<A>>
    decreases |keys|
  {
    if |keys| == 0 then []
    else
      match EventOf(c, keys[0])
      case None => EventsOf(c, keys[1..])
      case Some(e) => [e] + EventsOf(c, keys[1..])
  }

  /** The service names of a list of events. */
  function ServiceNames<A>(r: seq<Event<A>>): (names: seq<string>)
    ensures |names| == |r|
    ensures forall i :: 0 <= i < |r| ==> names[i] == r[i].service
  {
    if |r| == 0 then [] else [r[0].service] + ServiceNames(r[1..])
  }

  /** One step of `EventsOf`, unfolded. */
  lemma EventsOfCons<A>(c: Inputs<A>, keys: seq<string>)
    requires |keys| > 0
    ensures EventOf(c, keys[0]).None? ==> EventsOf(c, keys) == EventsOf(c, keys[1..])
    ensures EventOf(c, keys[0]).Some? ==> EventsOf(c, keys) == [EventOf(c, keys[0]).value] + EventsOf(c, keys[1..])
  {
  }

  lemma {:induction false} EventsOfSound<A>(c: Inputs<A>, keys: seq<string>)
    ensures forall i :: 0 <= i < |EventsOf(c, keys)| ==>
      EventsOf(c, keys)[i].service in keys && EventOf(c, EventsOf(c, keys)[i].service) == Some(EventsOf(c, keys)[i])
    decreases |keys|
  {
    if |keys| > 0 {
      var tail := keys[1..];
      EventsOfSound(c, tail);
      EventsOfCons(c, keys);
      var rest := EventsOf(c, tail);
      var r := EventsOf(c, keys);
      forall i | 0 <= i < |r| ensures r[i].service in keys && EventOf(c, r[i].service) == Some(r[i]) {
        if EventOf(c, keys[0]).Some? {
          if i > 0 {
            assert r[i] == rest[i - 1];
            assert rest[i - 1].service in tail;
          }
        } else {
          assert r[i] == rest[i];
          assert rest[i].service in tail;
        }
      }
    }
  }

  lemma {:induction false} EventsOfComplete<A>(c: Inputs<A>, keys: seq<string>)
    ensures forall k :: k in keys && EventOf(c, k).Some? ==>
      exists i :: 0 <= i < |EventsOf(c, keys)| && EventsOf(c, keys)[i].service == k
    decreases |keys|
  {
    if |keys| > 0 {
      var tail := keys[1..];
      EventsOfComplete(c, tail);
      EventsOfCons(c, keys);
      var rest := EventsOf(c, tail);
      var r := EventsOf(c, keys);
      forall k | k in keys && EventOf(c, k).Some?
        ensures exists i :: 0 <= i < |r| && r[i].service == k
      {
        if k == keys[0] {
          assert r[0].service == k;
        } else {
          assert k in tail;
          var i :| 0 <= i < |rest| && rest[i].service == k;
          if EventOf(c, keys[0]).Some? {
            assert r[i + 1] == rest[i];
          } else {
            assert r[i] == rest[i];
          }
        }
      }
    }
  }

  lemma {:induction false} EventsOfSorted<A>(c: Inputs<A>, keys: seq<string>)
    requires Order.StrictlySorted(keys)
    ensures Order.StrictlySorted(ServiceNames(EventsOf(c, keys)))
    decreases |keys|
  {
    if |keys| > 0 {
      var tail := keys[1..];
      assert Order.StrictlySorted(tail) by {
        forall i, j | 0 <= i < j < |tail| ensures Order.LexLe(tail[i], tail[j]) && tail[i] != tail[j] {
          assert tail[i] == keys[i + 1] && tail[j] == keys[j + 1];
        }
      }
      EventsOfSorted(c, tail);
      EventsOfSound(c, tail);
      EventsOfCons(c, keys);
      if EventOf(c, keys[0]).Some? {
        var rest := EventsOf(c, tail);
        var r := EventsOf(c, keys);
        var svc := ServiceNames(r);
        var restNames := ServiceNames(rest);
        assert svc[0] == keys[0];
        assert forall j :: 1 <= j < |svc| ==> svc[j] == restNames[j - 1];
        assert forall m :: 0 <= m < |restNames| ==> restNames[m] in tail;
        assert forall x :: x in tail ==> Order.LexLe(keys[0], x) && keys[0] != x;
      }
    }
  }

  /** `build_events(defaults)`: one event per collected service whose event
      exists, in ascending order of service name, each exactly as `EventFor`
      describes it. */
  function BuildEvents<A>(a: Agent, services: seq<Service>, defaults: Defaults<A>): (r: seq<Event<A>>)
    ensures Order.StrictlySorted(ServiceNames(r))
    ensures forall i :: 0 <= i < |r| ==>
      r[i].service in a.metrics && EventFor(a.metrics, a.oldMetrics, services, defaults, r[i].service) == Some(r[i])
    ensures forall k :: k in a.metrics && EventFor(a.metrics, a.oldMetrics, services, defaults, k).Some? ==>
      exists i :: 0 <= i < |r| && r[i].service == k
  {
    var keys := Order.SortedKeys(a.metrics.Keys);
    var c := Inputs(a.metrics, a.oldMetrics, services, defaults);
    EventsOfSound(c, keys);
    EventsOfComplete(c, keys);
    EventsOfSorted(c, keys);
    EventsOf(c, keys)
  }

  /** The first pass never yields an event for a diffed service: there is no
      earlier value to subtract. */
  lemma FirstPassDiffSilent<A>(sources: seq<Source>, services: seq<Service>, defaults: Defaults<A>, service: string)
    requires service in Collect(Start(), sources).metrics
    requires Truthy(Prototype(services, service).diff)
    ensures var a := Collect(Start(), sources);
      EventFor(a.metrics, a.oldMetrics, services, defaults, service).None?
  {
  }

  /** A counter that went backwards (say after a reboot) yields no event. */
  lemma CounterResetSilent<A>(a: Agent, services: seq<Service>, defaults: Defaults<A>, service: string)
    requires service in a.metrics && service in a.oldMetrics
    requires a.metrics[service] < a.oldMetrics[service]
    requires Truthy(Prototype(services, service).diff)
    ensures EventFor(a.metrics, a.oldMetrics, services, defaults, service).None?
    ensures forall e :: e in BuildEvents(a, services, defaults) ==> e.service != service
  {
    var r := BuildEvents(a, services, defaults);
    forall e | e in r ensures e.service != service {
      var i :| 0 <= i < |r| && r[i] == e;
    }
  }
}
