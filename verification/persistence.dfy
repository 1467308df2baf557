/** `load_metrics` and `save_metrics` of solanum.rb: the category tree as a
    YAML document.  Reading and writing the file is left to the caller: a
    missing file is `None`, an existing one is the document it holds. */
module Persistence {
  import opened Wrappers
  import opened Symbols
  import MetricRecord
  import opened MetricTree

  /** A YAML document: scalars, lists and maps (keys are strings). */
  datatype Doc =
    | DNil
    | DNum(n: real)
    | DStr(s: string)
    | DSym(y: Sym)
    | DList(items: seq<Doc>)
    | DMap(entries: seq<Entry>)

  datatype Entry = Entry(key: string, doc: Doc)

  /** Why loading stops: the program raises at the first of these it meets. */
  datatype LoadError =
    | TopNotEnumerable // `hash.each` on a scalar document
    | BadKey           // `k.intern` on a top-level pair whose key is not a String
    | UnknownNodeType // "Unknown node type": a node that is neither a list nor a map
    | RecordNotHash   // `r['time']` on a record that is not a map
    | BadTime         // `Time.at` of a missing or non-numeric time
    | BadValue        // a record value that is not nil, a number or a string
    | BadUnit         // `unit.intern` on a unit that is not a String or Symbol

  /** `map[k]`: the value stored under `k`; a later duplicate key wins. */
  function Get(es: seq<Entry>, k: string): (r: Option<Doc>)
    ensures r.None? <==> forall i :: 0 <= i < |es| ==> es[i].key != k
    ensures r.Some? ==> exists i :: 0 <= i < |es| && es[i].key == k && es[i].doc == r.value
    decreases |es|
  {
    if |es| == 0 then None
    else if es[|es| - 1].key == k then Some(es[|es| - 1].doc)
    else Get(es[..|es| - 1], k)
  }

  /** Looking up in a map with one more entry at the end. */
  lemma GetSnoc(es: seq<Entry>, e: Entry, k: string)
    ensures Get(es + [e], k) == if e.key == k then Some(e.doc) else Get(es, k)
  {
    assert (es + [e])[..|es|] == es;
  }

  /** `r['value']`: nil, a number or a string (a missing value is nil). */
  function LoadValue(o: Option<Doc>): (r: Result<MetricRecord.Value, LoadError>)
    ensures r.Ok? <==> o.None? || o.value.DNil? || o.value.DNum? || o.value.DStr?
    ensures r.Ok? && r.value.Nil? ==> o.None? || o.value.DNil?
  {
    match o
    case None => Ok(MetricRecord.Nil)
    case Some(DNil) => Ok(MetricRecord.Nil)
    case Some(DNum(n)) => Ok(MetricRecord.Num(n))
    case Some(DStr(s)) => Ok(MetricRecord.Str(s))
    case Some(_) => Err(BadValue)
  }

  /** `r['unit']` as `Record.new` takes it: nil (or missing) is no unit, a
      String is interned, a Symbol is kept, anything else raises. */
  function LoadUnit(o: Option<Doc>): (r: Result<UnitArg, LoadError>)
    ensures r.Ok? <==> o.None? || o.value.DNil? || o.value.DStr? || o.value.DSym?
    ensures r.Ok? ==> (r.value.NoUnit? <==> o.None? || o.value.DNil?)
  {
    match o
    case None => Ok(NoUnit)
    case Some(DNil) => Ok(NoUnit)
    case Some(DStr(s)) => Ok(StrUnit(s))
    case Some(DSym(y)) => Ok(SymUnit(y))
    case Some(_) => Err(BadUnit)
  }

  /** `Record.new(Time.at(r['time']), r['value'], r['unit'])`: the time must
      be a number; the unit is checked before the value. */
  function LoadRecord(d: Doc): (r: Result<MetricRecord.Record, LoadError>)
    ensures r.Ok? <==> (d.DMap? && Get(d.entries, "time").Some? && Get(d.entries, "time").value.DNum? &&
      LoadValue(Get(d.entries, "value")).Ok? && LoadUnit(Get(d.entries, "unit")).Ok?)
    ensures r.Ok? ==> Get(d.entries, "time") == Some(DNum(r.value.time))
    ensures r.Ok? ==> r.value.value == LoadValue(Get(d.entries, "value")).value
    ensures r.Ok? ==> r.value.unit == MetricRecord.NormalUnit(LoadUnit(Get(d.entries, "unit")).value)
  {
    match d
    case DMap(es) =>
      (match Get(es, "time")
       case Some(DNum(t)) =>
         var unit := LoadUnit(Get(es, "unit"));
         var value := LoadValue(Get(es, "value"));
         if unit.Err? then Err(unit.error)
         else if value.Err? then Err(value.error)
         else Ok(MetricRecord.New(t, value.value, unit.value))
       case _ => Err(BadTime))
    case _ => Err(RecordNotHash)
  }

  /** The records of a Metric node, in file order; the first bad one stops. */
  function LoadRecords(xs: seq<Doc>): (r: Result<seq<MetricRecord.Record>, LoadError>)
    ensures r.Ok? <==> forall i :: 0 <= i < |xs| ==> LoadRecord(xs[i]).Ok?
    ensures r.Ok? ==> |r.value| == |xs| && forall i :: 0 <= i < |xs| ==> r.value[i] == LoadRecord(xs[i]).value
    decreases |xs|
  {
    if |xs| == 0 then Ok([])
    else
      match LoadRecord(xs[0])
      case Err(e) => Err(e)
      case Ok(rec) =>
        match LoadRecords(xs[1..])
        case Err(e) => Err(e)
        case Ok(rest) => Ok([rec] + rest)
  }

  /** A document that loads: lists of good records and maps of such. */
  predicate Loadable(d: Doc)
    decreases d
  {
    match d
    case DList(xs) => forall i :: 0 <= i < |xs| ==> LoadRecord(xs[i]).Ok?
    case DMap(es) => forall i :: 0 <= i < |es| ==> Loadable(es[i].doc)
    case _ => false
  }

  /** One queued node: a list is a Metric, a map a Category, anything else
      raises. */
  function LoadNode(d: Doc): (r: Result<Node, LoadError>)
    ensures r.Ok? <==> Loadable(d)
    ensures r.Ok? ==> (r.value.Leaf? <==> d.DList?)
    ensures r.Ok? && d.DMap? ==> DistinctKeys(r.value.children)
    decreases d
  {
    match d
    case DList(xs) =>
      (match LoadRecords(xs)
       case Ok(rs) => Ok(Leaf(rs))
       case Err(e) => Err(e))
    case DMap(es) =>
      (match LoadEntries(es, [])
       case Ok(cs) => Ok(Category(cs))
       case Err(e) => Err(e))
    case _ => Err(UnknownNodeType)
  }

  /** The keys of a map's entries, interned. */
  function EntryKeys(es: seq<Entry>): (r: set<Sym>)
    ensures forall i :: 0 <= i < |es| ==> Sym(es[i].key) in r
    decreases |es|
  {
    if |es| == 0 then {} else {Sym(es[0].key)} + EntryKeys(es[1..])
  }

  /** The entries of a map, assigned in order with `category[k.intern] = node`
      onto the children loaded so far. */
  function LoadEntries(es: seq<Entry>, acc: seq<Child>): (r: Result<seq<Child>, LoadError>)
    ensures r.Ok? <==> forall i :: 0 <= i < |es| ==> Loadable(es[i].doc)
    ensures r.Ok? && DistinctKeys(acc) ==> DistinctKeys(r.value)
    ensures r.Ok? ==> Keys(r.value) == Keys(acc) + EntryKeys(es)
    decreases es
  {
    if |es| == 0 then Ok(acc)
    else
      match LoadNode(es[0].doc)
      case Err(e) => Err(e)
      case Ok(n) =>
        LoadEntries(es[1..], Put(acc, Sym(es[0].key), n))
  }

  /** One element of a top-level list, as `each {|k, v| ... }` splats it:
      a list gives its first two items (nil when missing), anything else is
      the key with a nil node.  A nil or scalar node is "Unknown node type";
      a list or map node under a key that is not a String fails at
      `k.intern`. */
  function PairEntry(d: Doc): (r: Result<Entry, LoadError>)
    ensures r.Ok? <==> d.DList? && |d.items| >= 2 && d.items[0].DStr?
    ensures r.Ok? ==> r.value == Entry(d.items[0].s, d.items[1])
    ensures r.Err? && !(d.DList? && |d.items| >= 2 && (d.items[1].DList? || d.items[1].DMap?)) ==> r == Err(UnknownNodeType)
  {
    match d
    case DList(xs) =>
      if |xs| >= 2 && xs[0].DStr? then Ok(Entry(xs[0].s, xs[1]))
      else if |xs| >= 2 && (xs[1].DList? || xs[1].DMap?) then Err(BadKey)
      else Err(UnknownNodeType)
    case _ => Err(UnknownNodeType)
  }

  /** The elements of a top-level list, each as a key and its node. */
  function PairEntries(items: seq<Doc>): (r: Result<seq<Entry>, LoadError>)
    ensures r.Ok? <==> forall i :: 0 <= i < |items| ==> PairEntry(items[i]).Ok?
    ensures r.Ok? ==> |r.value| == |items| && forall i :: 0 <= i < |items| ==> r.value[i] == PairEntry(items[i]).value
    decreases |items|
  {
    if |items| == 0 then Ok([])
    else
      match PairEntry(items[0])
      case Err(e) => Err(e)
      case Ok(e0) =>
        match PairEntries(items[1..])
        case Err(e) => Err(e)
        case Ok(rest) => Ok([e0] + rest)
  }

  /** `load_metrics(path)`: nil when the file does not exist; otherwise each
      key and node the top-level document enumerates becomes a child of the
      root: the entries of a map, or the pairs of a list. */
  function Load(file: Option<Doc>): (r: Result<Option<seq<Child>>, LoadError>)
    ensures file.None? ==> r == Ok(None)
    ensures file.Some? && !file.value.DMap? && !file.value.DList? ==> r == Err(TopNotEnumerable)
    ensures file.Some? && file.value.DMap? ==> (r.Ok? <==> Loadable(file.value))
    ensures file.Some? && file.value.DList? ==>
      (r.Ok? <==> forall i :: 0 <= i < |file.value.items| ==>
                    PairEntry(file.value.items[i]).Ok? && Loadable(PairEntry(file.value.items[i]).value.doc))
    ensures r.Ok? && r.value.Some? && file.value.DList? ==>
      forall i :: 0 <= i < |file.value.items| ==> Sym(file.value.items[i].items[0].s) in Keys(r.value.value)
    ensures r.Ok? && r.value.Some? ==> DistinctKeys(r.value.value)
  {
    match file
    case None => Ok(None)
    case Some(DMap(es)) => LoadTop(es)
    case Some(DList(items)) => LoadPairs(items)
    case Some(_) => Err(TopNotEnumerable)
  }

  /** A top-level list: `each {|k, v|}` splats every element as a pair. */
  function LoadPairs(items: seq<Doc>): (r: Result<Option<seq<Child>>, LoadError>)
    ensures r.Ok? <==> forall i :: 0 <= i < |items| ==>
                         PairEntry(items[i]).Ok? && Loadable(PairEntry(items[i]).value.doc)
    ensures r.Ok? ==> r.value.Some? && DistinctKeys(r.value.value)
    ensures r.Ok? ==> forall i :: 0 <= i < |items| ==>
                        items[i].DList? && |items[i].items| > 0 && items[i].items[0].DStr? &&
                        Sym(items[i].items[0].s) in Keys(r.value.value)
  {
    match PairEntries(items)
    case Err(e) => Err(e)
    case Ok(es) =>
      assert forall i :: 0 <= i < |items| ==> es[i] == PairEntry(items[i]).value;
      assert forall i :: 0 <= i < |items| ==> es[i].key == items[i].items[0].s && Sym(es[i].key) in EntryKeys(es);
      LoadTop(es)
  }

  /** The top-level entries, loaded into the new root category. */
  function LoadTop(es: seq<Entry>): (r: Result<Option<seq<Child>>, LoadError>)
    ensures r.Ok? <==> forall i :: 0 <= i < |es| ==> Loadable(es[i].doc)
    ensures r.Ok? ==> r.value.Some? && DistinctKeys(r.value.value) && Keys(r.value.value) == EntryKeys(es)
  {
    match LoadEntries(es, [])
    case Ok(cs) => Ok(Some(cs))
    case Err(e) => Err(e)
  }


  /** A record value as written out. */
  function ValueDoc(v: MetricRecord.Value): (r: Doc)
    ensures r.DNil? || r.DNum? || r.DStr?
  {
    match v
    case Nil => DNil
    case Num(n) => DNum(n)
    case Str(s) => DStr(s)
  }

  /** `{ 'time' => r.time.to_f, 'value' => r.value }`, with `'unit'` only
      when the record has a unit. */
  function SaveRecord(rec: MetricRecord.Record): (r: Doc)
    ensures r.DMap? && Get(r.entries, "time") == Some(DNum(rec.time))
    ensures Get(r.entries, "value") == Some(ValueDoc(rec.value))
    ensures Get(r.entries, "unit") == if rec.unit.Some? then Some(DSym(rec.unit.value)) else None
  {
    assert "unit" != "time" && "unit" != "value" && "value" != "time" by {
      assert "unit"[0] != "time"[0] && "unit"[0] != "value"[0] && "value"[0] != "time"[0];
    }
    var none: seq<Entry> := [];
    var first := none + [Entry("time", DNum(rec.time))];
    var base := first + [Entry("value", ValueDoc(rec.value))];
    GetSnoc(none, Entry("time", DNum(rec.time)), "time");
    GetSnoc(none, Entry("time", DNum(rec.time)), "value");
    GetSnoc(none, Entry("time", DNum(rec.time)), "unit");
    GetSnoc(first, Entry("value", ValueDoc(rec.value)), "time");
    GetSnoc(first, Entry("value", ValueDoc(rec.value)), "value");
    GetSnoc(first, Entry("value", ValueDoc(rec.value)), "unit");
    if rec.unit.Some? then
      var u := Entry("unit", DSym(rec.unit.value));
      GetSnoc(base, u, "time");
      GetSnoc(base, u, "value");
      GetSnoc(base, u, "unit");
      DMap(base + [u])
    else
      DMap(base)
  }

  /** A node as written out: a Metric as its list of records, a Category as
      the map of its children keyed by `k.to_s`. */
  function SaveNode(n: Node): (r: Doc)
    ensures n.Leaf? ==> r.DList? && |r.items| == |n.records|
    ensures n.Category? ==> r.DMap? && |r.entries| == |n.children|
    decreases n
  {
    match n
    case Leaf(rs) => DList(seq(|rs|, i requires 0 <= i < |rs| => SaveRecord(rs[i])))
    case Category(cs) => DMap(seq(|cs|, i requires 0 <= i < |cs| => Entry(cs[i].key.name, SaveNode(cs[i].node))))
  }

  /** The map written for the children of a Category. */
  function SaveEntries(cs: seq<Child>): (r: seq<Entry>)
    ensures |r| == |cs|
    ensures forall i :: 0 <= i < |cs| ==> r[i] == Entry(cs[i].key.name, SaveNode(cs[i].node))
  {
    SaveNode(Category(cs)).entries
  }

  /** `save_metrics(metrics, path)`: the document written for a root. */
  function Save(root: seq<Child>): (r: Doc)
    ensures r.DMap? && |r.entries| == |root|
  {
    DMap(SaveEntries(root))
  }

  /** A saved record loads back as itself. */
  lemma RecordRoundTrip(rec: MetricRecord.Record)
    ensures LoadRecord(SaveRecord(rec)) == Ok(rec)
  {
    var es := SaveRecord(rec).entries;
    ValueRoundTrip(rec.value);
    UnitRoundTrip(rec.unit);
    assert LoadValue(Get(es, "value")) == Ok(rec.value);
    assert LoadUnit(Get(es, "unit")) == Ok(MetricRecord.UnitArgOf(rec.unit));
    MetricRecord.RebuildRecord(rec);
  }

  /** A saved value loads back as itself. */
  lemma ValueRoundTrip(v: MetricRecord.Value)
    ensures LoadValue(Some(ValueDoc(v))) == Ok(v)
  {
    match v
    case Nil =>
    case Num(_) =>
    case Str(_) =>
  }

  /** A saved unit (or its absence) loads back as the unit argument that
      rebuilds it. */
  lemma UnitRoundTrip(u: Option<Sym>)
    ensures LoadUnit(if u.Some? then Some(DSym(u.value)) else None) == Ok(MetricRecord.UnitArgOf(u))
  {
  }

  /** A saved list of records loads back as itself. */
  lemma RecordsRoundTrip(rs: seq<MetricRecord.Record>)
    ensures LoadRecords(seq(|rs|, i requires 0 <= i < |rs| => SaveRecord(rs[i]))) == Ok(rs)
  {
    var xs := seq(|rs|, i requires 0 <= i < |rs| => SaveRecord(rs[i]));
    forall i | 0 <= i < |rs| ensures LoadRecord(xs[i]) == Ok(rs[i]) {
      RecordRoundTrip(rs[i]);
    }
    var r := LoadRecords(xs);
    assert r.Ok? && |r.value| == |rs|;
    assert forall i :: 0 <= i < |rs| ==> r.value[i] == rs[i];
    assert r.value == rs;
  }

  /** The keys of a concatenation. */
  lemma {:induction false} KeysAppend(a: seq<Child>, b: seq<Child>)
    ensures Keys(a + b) == Keys(a) + Keys(b)
    decreases |a|
  {
    if |a| > 0 {
      assert (a + b)[1..] == a[1..] + b;
      KeysAppend(a[1..], b);
    } else {
      assert a + b == b;
    }
  }

  /** Keys of a concatenation with distinct keys are disjoint. */
  lemma {:induction false} DistinctSplit(a: seq<Child>, b: seq<Child>)
    requires DistinctKeys(a + b)
    ensures DistinctKeys(a) && DistinctKeys(b) && Keys(a) !! Keys(b)
    decreases |a|
  {
    if |a| > 0 {
      assert (a + b)[1..] == a[1..] + b;
      assert (a + b)[0] == a[0];
      DistinctSplit(a[1..], b);
      KeysAppend(a[1..], b);
    } else {
      assert a + b == b;
    }
  }

  /** A well-formed node survives saving and loading unchanged. */
  lemma {:induction false} NodeRoundTrip(n: Node)
    requires WellFormed(n)
    ensures LoadNode(SaveNode(n)) == Ok(n)
    decreases n, if n.Category? then |n.children| + 1 else 0
  {
    match n
    case Leaf(rs) => RecordsRoundTrip(rs);
    case Category(cs) =>
      assert [] + cs == cs;
      assert cs[0..] == cs;
      EntriesRoundTrip(n, 0, []);
  }

  /** Assigning the first of a run of distinct-keyed children appends it. */
  lemma AppendFresh(acc: seq<Child>, cs: seq<Child>)
    requires |cs| > 0 && DistinctKeys(acc + cs)
    ensures Put(acc, cs[0].key, cs[0].node) == acc + [cs[0]]
    ensures (acc + [cs[0]]) + cs[1..] == acc + cs
  {
    var c := cs[0];
    DistinctSplit(acc, cs);
    assert c.key in Keys(cs);
    assert c.key !in Keys(acc);
    assert Child(c.key, c.node) == c;
    assert (acc + [c]) + cs[1..] == acc + ([c] + cs[1..]);
    assert [c] + cs[1..] == cs;
  }

  /** Loading the saved entries of a Category's children from the `k`-th on
      onto `acc` appends them in order. */
  lemma {:induction false} EntriesRoundTrip(parent: Node, k: nat, acc: seq<Child>)
    requires parent.Category? && k <= |parent.children|
    requires DistinctKeys(acc + parent.children[k..])
    requires forall i :: 0 <= i < |parent.children| ==> WellFormed(parent.children[i].node)
    ensures LoadEntries(SaveEntries(parent.children[k..]), acc) == Ok(acc + parent.children[k..])
    decreases parent, |parent.children| - k
  {
    var cs := parent.children[k..];
    var es := SaveEntries(cs);
    if |cs| == 0 {
      assert acc + cs == acc;
    } else {
      var c := parent.children[k];
      assert cs[0] == c;
      NodeRoundTrip(c.node);
      AppendFresh(acc, cs);
      var acc2 := acc + [c];
      assert cs[1..] == parent.children[k + 1..];
      EntriesRoundTrip(parent, k + 1, acc2);
      assert es[1..] == SaveEntries(cs[1..]);
      assert es[0] == Entry(c.key.name, SaveNode(c.node));
      LoadStep(es, acc, c.node);
    }
  }

  /** One step of `LoadEntries` over an entry that loads as `n`. */
  lemma LoadStep(es: seq<Entry>, acc: seq<Child>, n: Node)
    requires |es| > 0 && LoadNode(es[0].doc) == Ok(n)
    ensures LoadEntries(es, acc) == LoadEntries(es[1..], Put(acc, Sym(es[0].key), n))
  {
  }

  /** Saving a well-formed tree and loading the file gives the tree back. */
  lemma SaveLoad(root: seq<Child>)
    requires WellFormed(Category(root))
    ensures Load(Some(Save(root))) == Ok(Some(root))
  {
    NodeRoundTrip(Category(root));
    assert SaveNode(Category(root)) == Save(root);
  }

  /** A missing file loads as nothing; an empty map or an empty list as an
      empty tree. */
  lemma LoadEmpty()
    ensures Load(None) == Ok(None)
    ensures Load(Some(DMap([]))) == Ok(Some([]))
    ensures Load(Some(DList([]))) == Ok(Some([]))
  {
  }

  /** A map's entries written as a list of `[key, node]` pairs. */
  function AsPairs(es: seq<Entry>): (r: seq<Doc>)
    ensures |r| == |es|
    ensures forall i :: 0 <= i < |es| ==> r[i] == DList([DStr(es[i].key), es[i].doc])
  {
    seq(|es|, i requires 0 <= i < |es| => DList([DStr(es[i].key), es[i].doc]))
  }

  /** A top-level list of `[key, node]` pairs loads exactly as the map with
      those entries. */
  lemma PairsLoadLikeMap(es: seq<Entry>)
    ensures Load(Some(DList(AsPairs(es)))) == Load(Some(DMap(es)))
  {
    var ps := AsPairs(es);
    assert PairEntries(ps).Ok?;
    assert PairEntries(ps).value == es;
  }

  /** A saved tree, rewritten as a list of pairs, still loads back as the tree. */
  lemma SavedPairsLoad(root: seq<Child>)
    requires WellFormed(Category(root))
    ensures Load(Some(DList(AsPairs(Save(root).entries)))) == Ok(Some(root))
  {
    PairsLoadLikeMap(Save(root).entries);
    SaveLoad(root);
  }

  /** A top-level pair without a node, or a bare scalar, raises. */
  lemma ShortPairRaises(k: string, x: Doc)
    requires !x.DList?
    ensures Load(Some(DList([DList([DStr(k)])]))) == Err(UnknownNodeType)
    ensures Load(Some(DList([x]))) == Err(UnknownNodeType)
    ensures Load(Some(DNum(1.0))) == Err(TopNotEnumerable)
  {
    assert PairEntries([DList([DStr(k)])]) == Err(UnknownNodeType);
    assert PairEntries([x]) == Err(UnknownNodeType);
  }
}
