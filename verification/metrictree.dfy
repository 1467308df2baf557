/** The category tree of solanum/metrics/category.rb and
    solanum/metrics/metric.rb.  A Category is a Hash from symbols to child
    nodes, kept in insertion order; a Metric holds its record history. */
module MetricTree {
  import opened Wrappers
  import opened Symbols
  import MetricRecord

  datatype Node = Leaf(records: seq<MetricRecord.Record>) | Category(children: seq<Child>)
  datatype Child = Child(key: Sym, node: Node)

  const EmptyPathError: string := "Cannot create metric with empty path"
  /** The message of a NoMethodError for `name`. */
  function NoMethod(name: string): string {
    "undefined method `" + name + "'"
  }

  /** The NoMethodError raised when a path runs through a Metric. */
  const NoResolveError: string := NoMethod("resolve")

  /** The keys of a category. */
  function Keys(cs: seq<Child>): (r: set<Sym>)
    ensures forall i :: 0 <= i < |cs| ==> cs[i].key in r
    decreases |cs|
  {
    if |cs| == 0 then {} else {cs[0].key} + Keys(cs[1..])
  }

  /** A Hash holds each key once. */
  predicate DistinctKeys(cs: seq<Child>)
    decreases |cs|
  {
    |cs| == 0 || (cs[0].key !in Keys(cs[1..]) && DistinctKeys(cs[1..]))
  }

  /** Every category in the tree holds each key once. */
  predicate WellFormed(n: Node)
    decreases n
  {
    n.Category? ==>
      DistinctKeys(n.children) && forall i :: 0 <= i < |n.children| ==> WellFormed(n.children[i].node)
  }

  /** `self[k]`: the child under `k`, nil when there is none. */
  function Lookup(cs: seq<Child>, k: Sym): (r: Option<Node>)
    ensures r.None? <==> k !in Keys(cs)
    decreases |cs|
  {
    if |cs| == 0 then None
    else if cs[0].key == k then Some(cs[0].node)
    else Lookup(cs[1..], k)
  }

  /** `self[k] = n`: replaces the child under `k` where it stands, or appends
      a new one. */
  function Put(cs: seq<Child>, k: Sym, n: Node): (r: seq<Child>)
    ensures Lookup(r, k) == Some(n)
    ensures forall j :: j != k ==> Lookup(r, j) == Lookup(cs, j)
    ensures Keys(r) == Keys(cs) + {k}
    ensures Lookup(cs, k) == Some(n) ==> r == cs
    ensures DistinctKeys(cs) ==> DistinctKeys(r)
    ensures k !in Keys(cs) ==> r == cs + [Child(k, n)]
    decreases |cs|
  {
    if |cs| == 0 then [Child(k, n)]
    else if cs[0].key == k then
      var r := [Child(k, n)] + cs[1..];
      assert r[1..] == cs[1..];
      assert Lookup(cs, k) == Some(n) ==> r == cs by {
        if Lookup(cs, k) == Some(n) {
          assert cs == [cs[0]] + cs[1..];
        }
      }
      r
    else
      var rest := Put(cs[1..], k, n);
      var r := [cs[0]] + rest;
      assert r[1..] == rest;
      assert Lookup(cs, k) == Some(n) ==> r == cs by {
        if Lookup(cs, k) == Some(n) {
          assert cs == [cs[0]] + cs[1..];
        }
      }
      assert k !in Keys(cs) ==> r == cs + [Child(k, n)] by {
        if k !in Keys(cs) {
          assert [cs[0]] + (cs[1..] + [Child(k, n)]) == cs + [Child(k, n)];
        }
      }
      r
  }

  /** The node at `path` below a category, if there is one. */
  function AtPath(cs: seq<Child>, path: seq<Sym>): Option<Node>
    decreases |path|
  {
    if |path| == 0 then None
    else
      match Lookup(cs, path[0])
      case None => None
      case Some(n) =>
        if |path| == 1 then Some(n)
        else if n.Category? then AtPath(n.children, path[1..])
        else None
  }

  /** `Category#resolve(path)`: the node at `path`, creating a Metric at the
      end and Categories on the way where missing.  Returns the updated
      children and the resolved node. */
  function Resolve(cs: seq<Child>, path: seq<Sym>): (r: Result<(seq<Child>, Node), string>)
    ensures |path| == 0 ==> r == Err(EmptyPathError)
    ensures r.Ok? ==> AtPath(r.value.0, path) == Some(r.value.1)
    ensures AtPath(cs, path).Some? ==> r == Ok((cs, AtPath(cs, path).value))
    ensures r.Ok? && AtPath(cs, path).None? ==> r.value.1 == Leaf([])
    ensures r.Ok? ==> forall k :: k != path[0] ==> Lookup(r.value.0, k) == Lookup(cs, k)
    ensures r.Ok? ==> Keys(r.value.0) == Keys(cs) + {path[0]}
    ensures r.Ok? && DistinctKeys(cs) ==> DistinctKeys(r.value.0)
    decreases |path|
  {
    if |path| == 0 then Err(EmptyPathError)
    else if |path| == 1 then
      match Lookup(cs, path[0])
      case Some(n) => Ok((cs, n))
      case None => Ok((Put(cs, path[0], Leaf([])), Leaf([])))
    else
      var existing := Lookup(cs, path[0]);
      if existing.Some? && existing.value.Leaf? then Err(NoResolveError)
      else
        var sub := if existing.Some? then existing.value.children else [];
        match Resolve(sub, path[1..])
        case Err(e) => Err(e)
        case Ok((sub2, n)) => Ok((Put(cs, path[0], Category(sub2)), n))
  }

  /** `path` runs through a Metric before its end. */
  predicate BlockedByLeaf(cs: seq<Child>, path: seq<Sym>) {
    exists i :: 0 < i < |path| && AtPath(cs, path[..i]).Some? && AtPath(cs, path[..i]).value.Leaf?
  }

  /** `resolve` raises exactly for an empty path or a path through a Metric. */
  lemma {:induction false} ResolveFails(cs: seq<Child>, path: seq<Sym>)
    ensures Resolve(cs, path).Err? <==> |path| == 0 || BlockedByLeaf(cs, path)
    decreases |path|
  {
    if |path| >= 2 {
      var existing := Lookup(cs, path[0]);
      assert path[..1] == [path[0]];
      assert AtPath(cs, path[..1]) == existing;
      if existing.Some? && existing.value.Leaf? {
        assert BlockedByLeaf(cs, path);
      } else {
        var sub := if existing.Some? then existing.value.children else [];
        ResolveFails(sub, path[1..]);
        forall i | 1 < i < |path| ensures AtPath(cs, path[..i]) == AtPath(sub, path[1..][..i - 1]) {
          assert path[..i][0] == path[0] && path[..i][1..] == path[1..][..i - 1];
        }
        if BlockedByLeaf(cs, path) {
          var i :| 0 < i < |path| && AtPath(cs, path[..i]).Some? && AtPath(cs, path[..i]).value.Leaf?;
          assert i > 1;
          assert BlockedByLeaf(sub, path[1..]) by {
            assert 0 < i - 1 < |path[1..]|;
          }
        }
        if BlockedByLeaf(sub, path[1..]) {
          var i :| 0 < i < |path[1..]| && AtPath(sub, path[1..][..i]).Some? && AtPath(sub, path[1..][..i]).value.Leaf?;
          assert AtPath(cs, path[..i + 1]) == AtPath(sub, path[1..][..i]);
        }
      }
    } else if |path| == 1 {
      assert !BlockedByLeaf(cs, path);
    }
  }

  /** Resolving twice changes nothing the second time and gives the same node. */
  lemma ResolveIdempotent(cs: seq<Child>, path: seq<Sym>)
    requires Resolve(cs, path).Ok?
    ensures Resolve(Resolve(cs, path).value.0, path) == Resolve(cs, path)
  {
  }

  /** `q` is a prefix of `p`. */
  predicate IsPrefix(q: seq<Sym>, p: seq<Sym>)
    decreases |q|
  {
    |q| == 0 || (|p| > 0 && q[0] == p[0] && IsPrefix(q[1..], p[1..]))
  }

  /** Only the nodes along the path change: every other path reaches what
      it reached before. */
  lemma {:induction false} ResolveFrame(cs: seq<Child>, path: seq<Sym>, q: seq<Sym>)
    requires Resolve(cs, path).Ok?
    requires !IsPrefix(q, path)
    ensures AtPath(Resolve(cs, path).value.0, q) == AtPath(cs, q)
    decreases |path|
  {
    var after := Resolve(cs, path).value.0;
    if |q| > 0 && q[0] == path[0] {
      var existing := Lookup(cs, path[0]);
      if |path| == 1 {
        // q extends the resolved path beyond a node that either existed
        // already or is a new, empty Metric.
        if existing.None? {
          assert Lookup(after, q[0]) == Some(Leaf([]));
        }
      } else {
        var sub := if existing.Some? then existing.value.children else [];
        var sub2 := Resolve(sub, path[1..]).value.0;
        assert Lookup(after, q[0]) == Some(Category(sub2));
        if |q| > 1 {
          ResolveFrame(sub, path[1..], q[1..]);
          if existing.None? {
            assert AtPath(sub, q[1..]) == None;
          }
        }
      }
    }
  }

  /** `self[path] = n` along an existing path. */
  function Update(cs: seq<Child>, path: seq<Sym>, n: Node): (r: seq<Child>)
    requires AtPath(cs, path).Some?
    ensures AtPath(r, path) == Some(n)
    ensures Keys(r) == Keys(cs)
    ensures forall k :: k != path[0] ==> Lookup(r, k) == Lookup(cs, k)
    ensures DistinctKeys(cs) ==> DistinctKeys(r)
    decreases |path|
  {
    if |path| == 1 then Put(cs, path[0], n)
    else
      var sub := Lookup(cs, path[0]).value.children;
      Put(cs, path[0], Category(Update(sub, path[1..], n)))
  }

  /** Replacing a Metric by a Metric leaves every path that is not a prefix
      of its own reaching what it reached before. */
  lemma {:induction false} UpdateFrame(cs: seq<Child>, path: seq<Sym>, n: Node, q: seq<Sym>)
    requires AtPath(cs, path).Some? && AtPath(cs, path).value.Leaf? && n.Leaf?
    requires !IsPrefix(q, path)
    ensures AtPath(Update(cs, path, n), q) == AtPath(cs, q)
    decreases |path|
  {
    if |q| > 0 && q[0] == path[0] && |path| > 1 && |q| > 1 {
      var sub := Lookup(cs, path[0]).value.children;
      UpdateFrame(sub, path[1..], n, q[1..]);
    }
  }

  /** The message of a failed child lookup. */
  function NoElement(op: Sym): string {
    "No category element named " + op.name
  }

  /** `method_missing(op)`: dereferences the child `op`, raising when there
      is none. */
  function Deref(cs: seq<Child>, op: Sym): (r: Result<Node, string>)
    ensures r.Ok? <==> op in Keys(cs)
    ensures r.Ok? ==> Lookup(cs, op) == Some(r.value)
    ensures r.Err? ==> r.error == NoElement(op)
  {
    match Lookup(cs, op)
    case None => Err(NoElement(op))
    case Some(n) => Ok(n)
  }

  /** After a resolve, the first step of the path can be dereferenced. */
  lemma DerefAfterResolve(cs: seq<Child>, path: seq<Sym>)
    requires Resolve(cs, path).Ok?
    ensures Deref(Resolve(cs, path).value.0, path[0]).Ok?
  {
  }
}
