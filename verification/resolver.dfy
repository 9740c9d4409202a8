/**
 * The rate resolver: a breadth-first search over the conversion graph,
 * bounded to two hops, that returns the rate of the first path it finds.
 */
module Resolver {
  import opened Symbols
  import opened Pricing


  // ---------------------------------------------------------------------
  // Specification: which rate the search finds

  /** Whether `g` holds an edge from `a` to `b`. */
  ghost predicate Hop(g: Graph, a: string, b: string) {
    exists j :: 0 <= j < |Out(g, a)| && Out(g, a)[j].to == b
  }

  /** The first edge of `es` that reaches `dst`, in list order. */
  function FirstTo(es: seq<Edge>, dst: string): (r: Option<Edge>)
    ensures r.None? <==> forall j :: 0 <= j < |es| ==> es[j].to != dst
    ensures r.Some? ==> exists j :: 0 <= j < |es| && es[j] == r.value && r.value.to == dst
                                    && forall k :: 0 <= k < j ==> es[k].to != dst
  {
    if es == [] then None
    else if es[0].to == dst then Some(es[0])
    else
      var r := FirstTo(es[1..], dst);
      assert r.Some? ==> exists j :: 1 <= j < |es| && es[j] == r.value && r.value.to == dst
                                      && forall k :: 1 <= k < j ==> es[k].to != dst;
      r
  }

  /**
   * `rate` times the rate of the first edge from `node` to `dst`, or None
   * when `node` has no edge to `dst`.
   */
  function Reach(g: Graph, node: string, rate: real, dst: string): (r: Option<real>)
    ensures r.None? <==> !Hop(g, node, dst)
  {
    match FirstTo(Out(g, node), dst)
    case None => None
    case Some(e) => Some(rate * e.rate)
  }

  /** From a node whose first edge to `dst` is edge `j`, Reach finds `rate` times that edge's rate. */
  lemma ReachFirstEdge(g: Graph, node: string, rate: real, dst: string, j: nat)
    requires j < |Out(g, node)| && Out(g, node)[j].to == dst
    requires forall k :: 0 <= k < j ==> Out(g, node)[k].to != dst
    ensures Reach(g, node, rate, dst).Some? && Reach(g, node, rate, dst).value == rate * Out(g, node)[j].rate
  {
    var es := Out(g, node);
    var e := FirstTo(es, dst).value;
    var i :| 0 <= i < |es| && es[i] == e && e.to == dst && forall k :: 0 <= k < i ==> es[k].to != dst;
    assert i == j;
  }

  /**
   * The two-hop rate through the first edge of `es` whose target has an edge
   * to `dst`: that edge's rate times the rate of its target's first edge to
   * `dst`.
   */
  function Via(g: Graph, es: seq<Edge>, dst: string): Option<real> {
    if es == [] then None
    else
      match Reach(g, es[0].to, es[0].rate, dst)
      case Some(r) => Some(r)
      case None => Via(g, es[1..], dst)
  }

  /**
   * The rate from `src` to `dst` (both already upper case): 1 for the same
   * symbol; else the rate of the first edge src -> dst; else the two-hop rate
   * through the first edge src -> X whose target X has an edge to `dst`;
   * else None.
   */
  function Resolve(g: Graph, src: string, dst: string): Option<real> {
    if src == dst then Some(1.0)
    else
      match FirstTo(Out(g, src), dst)
      case Some(e) => Some(e.rate)
      case None => Via(g, Out(g, src), dst)
  }

  // ---------------------------------------------------------------------
  // The search itself

  /** A queue entry: a node, the rate accumulated on the way to it, and its hop count. */
  datatype Entry = Entry(node: string, rate: real, depth: nat)

  /** The (node, depth) key under which an entry is recorded as visited. */
  function Key(q: Entry): (string, nat) {
    (q.node, q.depth)
  }

  /** The keys `(e.to, depth)` of the edges `es`. */
  function TargetKeys(es: seq<Edge>, depth: nat): set<(string, nat)> {
    if es == [] then {} else {(es[0].to, depth)} + TargetKeys(es[1..], depth)
  }

  /**
   * The entries that expanding a node with accumulated `rate` appends to the
   * queue: one per edge in `es` whose key `(target, depth)` is neither in
   * `visited` nor the key of an earlier edge, carrying `rate` times the
   * edge's rate.
   */
  function Fresh(es: seq<Edge>, rate: real, depth: nat, visited: set<(string, nat)>): seq<Entry> {
    if es == [] then []
    else if (es[0].to, depth) in visited then Fresh(es[1..], rate, depth, visited)
    else [Entry(es[0].to, rate * es[0].rate, depth)] + Fresh(es[1..], rate, depth, visited + {(es[0].to, depth)})
  }

  /**
   * The inner loop of find_rate_max_2_hops for one dequeued entry
   * (`node`, `rate`, `depth`): walk the edges of `node` in order; return the
   * accumulated rate at the first edge that reaches `dst`; otherwise enqueue
   * every edge target whose key at `depth + 1` is unvisited, marking it
   * visited.
   */
  method ExpandNode(graph: Graph, node: string, rate: real, depth: nat, dst: string,
                    queue: seq<Entry>, visited: set<(string, nat)>)
    returns (found: Option<real>, queue': seq<Entry>, visited': set<(string, nat)>)
    ensures found == Reach(graph, node, rate, dst)
    ensures found.None? ==> queue' == queue + Fresh(Out(graph, node), rate, depth + 1, visited)
    ensures found.None? ==> visited' == visited + TargetKeys(Out(graph, node), depth + 1)
  {
    queue', visited' := queue, visited;
    var edges := Out(graph, node);
    for i := 0 to |edges|
      invariant FirstTo(edges[..i], dst) == None
      invariant queue' + Fresh(edges[i..], rate, depth + 1, visited')
                == queue + Fresh(edges, rate, depth + 1, visited)
      invariant visited' + TargetKeys(edges[i..], depth + 1) == visited + TargetKeys(edges, depth + 1)
    {
      var edge := edges[i];
      var nextNode := edge.to;
      var nextRate := rate * edge.rate;
      var nextDepth: nat := depth + 1;

      if nextNode == dst {
        FirstToAt(edges, dst, i);
        ReachOf(graph, node, rate, dst, edge);
        return Some(nextRate), queue', visited';
      }

      ExpandStep(edges, i, rate, nextDepth, visited', dst);
      var key := (nextNode, nextDepth);
      if key !in visited' {
        ghost var tail := Fresh(edges[i + 1..], rate, nextDepth, visited' + {key});
        FreshUnvisited(edges[i..], rate, nextDepth, visited', Entry(nextNode, nextRate, nextDepth));
        assert queue' + ([Entry(nextNode, nextRate, nextDepth)] + tail)
               == (queue' + [Entry(nextNode, nextRate, nextDepth)]) + tail;
        visited' := visited' + {key};
        queue' := queue' + [Entry(nextNode, nextRate, nextDepth)];
      }
    }
    assert edges[..|edges|] == edges;
    found := None;
  }

  /**
   * find_rate_max_2_hops: upper-case both symbols; return 1 when they agree;
   * otherwise search breadth first from the first symbol, at most two hops
   * deep, expanding each (node, depth) at most once, and return the product
   * of the edge rates of the first path that reaches the second symbol, or
   * None when the queue runs dry.
   */
  method FindRateMax2Hops(graph: Graph, currency1: string, currency2: string)
    returns (r: Option<real>, ghost enqueued: seq<(string, nat)>)
    ensures Upper(currency1) == Upper(currency2) ==> r == Some(1.0)
    ensures r == Resolve(graph, Upper(currency1), Upper(currency2))
    ensures Distinct(enqueued)
    ensures forall k :: k in enqueued ==> k.1 <= 2
    ensures Upper(currency1) != Upper(currency2) ==> enqueued != [] && enqueued[0] == (Upper(currency1), 0)
    ensures forall k :: k in enqueued ==> HopKey(graph, Upper(currency1), k)
    ensures r.None? ==> forall k :: HopKey(graph, Upper(currency1), k) ==> k in enqueued
  {
    var c1 := Upper(currency1);
    var c2 := Upper(currency2);
    enqueued := [];
    if c1 == c2 {
      return Some(1.0), enqueued;
    }

    var queue := [Entry(c1, 1.0, 0)];
    var visited: set<(string, nat)> := {(c1, 0)};
    ghost var expanded := false;        // whether the start entry has been expanded
    ghost var done: seq<string> := [];  // the depth-1 nodes expanded so far
    enqueued := [(c1, 0)];              // the key of every entry ever enqueued, in order
    SearchInit(graph, c1, c2);

    while queue != []
      invariant SearchInv(graph, c1, c2, expanded, queue, visited, done, enqueued)
      invariant enqueued != [] && enqueued[0] == (c1, 0)
      decreases if expanded then 0 else 1, DepthOneCount(queue), |queue|
    {
      ghost var before := queue;
      var item := queue[0];
      queue := queue[1..];
      var node, rate, depth := item.node, item.rate, item.depth;
      if depth >= 2 {
        assert expanded;
        SkipStep(graph, c1, c2, before, visited, done, enqueued);
        continue;
      }
      ghost var seen := visited;
      var found;
      found, queue, visited := ExpandNode(graph, node, rate, depth, c2, queue, visited);
      if found.Some? {
        FoundStep(graph, c1, c2, expanded, before, seen, done, enqueued, found);
        return found, enqueued;
      }
      AdvanceStep(graph, c1, c2, expanded, before, seen, done, enqueued, node, rate, depth);
      enqueued := enqueued + Keys(Fresh(Out(graph, node), rate, depth + 1, seen));
      done := if depth == 0 then done else done + [node];
      expanded := true;
    }
    FinishNone(graph, c1, c2, expanded, visited, done, enqueued);
    return None, enqueued;
  }

  // ---------------------------------------------------------------------
  // Properties of the resolution

  /** Via finds nothing exactly when no edge of `es` leads to a node with an edge to `dst`. */
  lemma {:induction false} ViaNoneIff(g: Graph, es: seq<Edge>, dst: string)
    ensures Via(g, es, dst).None? <==> forall i :: 0 <= i < |es| ==> !Hop(g, es[i].to, dst)
  {
    if es != [] {
      ViaNoneIff(g, es[1..], dst);
      assert forall i :: 1 <= i < |es| ==> es[i] == es[1..][i - 1];
    }
  }

  /** Via takes the first edge of `es` whose target has an edge to `dst`. */
  lemma {:induction false} ViaFirst(g: Graph, es: seq<Edge>, dst: string, i: nat)
    requires i < |es| && Hop(g, es[i].to, dst)
    requires forall k :: 0 <= k < i ==> !Hop(g, es[k].to, dst)
    ensures Via(g, es, dst) == Reach(g, es[i].to, es[i].rate, dst)
  {
    if i == 0 {
      assert Via(g, es, dst).value == Reach(g, es[0].to, es[0].rate, dst).value;
    } else {
      ViaFirst(g, es[1..], dst, i - 1);
    }
  }

  /** `r` is the rate of edge `e1` followed by an edge from its target to `dst`. */
  ghost predicate TwoHopRate(g: Graph, e1: Edge, dst: string, r: real) {
    exists j :: 0 <= j < |Out(g, e1.to)| && Out(g, e1.to)[j].to == dst && r == e1.rate * Out(g, e1.to)[j].rate
  }

  /** A rate Via finds is the product of the rates of two consecutive edges ending at `dst`. */
  lemma {:induction false} ViaIsPathRate(g: Graph, es: seq<Edge>, dst: string, r: real)
    requires Via(g, es, dst) == Some(r)
    ensures exists i :: 0 <= i < |es| && TwoHopRate(g, es[i], dst, r)
  {
    var first := Reach(g, es[0].to, es[0].rate, dst);
    if first.Some? {
      assert Via(g, es, dst).value == first.value;
      assert TwoHopRate(g, es[0], dst, r);
    } else {
      assert Via(g, es, dst) == Via(g, es[1..], dst);
      ViaIsPathRate(g, es[1..], dst, r);
      var i :| 0 <= i < |es[1..]| && TwoHopRate(g, es[1..][i], dst, r);
      assert es[1..][i] == es[i + 1];
    }
  }

  /**
   * The resolver finds nothing exactly when the symbols differ and no path of
   * one or two hops joins them; a path of three or more hops is never enough.
   */
  lemma ResolveNoneIff(g: Graph, src: string, dst: string)
    ensures Resolve(g, src, dst).None?
            <==> src != dst && !Hop(g, src, dst) && forall x :: Hop(g, src, x) ==> !Hop(g, x, dst)
  {
    var es := Out(g, src);
    ViaNoneIff(g, es, dst);
    if src != dst && !Hop(g, src, dst) {
      assert FirstTo(es, dst).None?;
      if Via(g, es, dst).None? {
        forall x | Hop(g, src, x)
          ensures !Hop(g, x, dst)
        {
          var j :| 0 <= j < |es| && es[j].to == x;
        }
      } else {
        var i :| 0 <= i < |es| && Hop(g, es[i].to, dst);
        assert Hop(g, src, es[i].to);
      }
    }
  }

  /** A direct edge beats every two-hop path: the first edge src -> dst in insertion order gives the rate. */
  lemma ResolveDirectFirst(g: Graph, src: string, dst: string, i: nat)
    requires src != dst && i < |Out(g, src)| && Out(g, src)[i].to == dst
    requires forall k :: 0 <= k < i ==> Out(g, src)[k].to != dst
    ensures Resolve(g, src, dst) == Some(Out(g, src)[i].rate)
  {
    var e := FirstTo(Out(g, src), dst).value;
    assert Resolve(g, src, dst).value == e.rate;
  }

  /**
   * Without a direct edge, the rate is that of the first edge src -> X (in
   * insertion order) whose target X has an edge to `dst`, times the rate of
   * X's first edge to `dst`.
   */
  lemma ResolveTwoHopFirst(g: Graph, src: string, dst: string, i: nat, j: nat)
    requires src != dst && !Hop(g, src, dst)
    requires i < |Out(g, src)| && forall k :: 0 <= k < i ==> !Hop(g, Out(g, src)[k].to, dst)
    requires j < |Out(g, Out(g, src)[i].to)| && Out(g, Out(g, src)[i].to)[j].to == dst
    requires forall k :: 0 <= k < j ==> Out(g, Out(g, src)[i].to)[k].to != dst
    ensures Resolve(g, src, dst).Some?
    ensures Resolve(g, src, dst).value == Out(g, src)[i].rate * Out(g, Out(g, src)[i].to)[j].rate
  {
    var e1 := Out(g, src)[i];
    var e2 := Out(g, e1.to)[j];
    ResolveViaNeighbour(g, src, dst, i);
    FirstToAt(Out(g, e1.to), dst, j);
    ReachOf(g, e1.to, e1.rate, dst, e2);
    assert Resolve(g, src, dst) == Reach(g, e1.to, e1.rate, dst);
  }

  /** A rate the resolver returns for two different symbols is the rate of one edge or the product of two. */
  lemma ResolveIsPathRate(g: Graph, src: string, dst: string, r: real)
    requires src != dst && Resolve(g, src, dst) == Some(r)
    ensures || (exists i :: 0 <= i < |Out(g, src)| && Out(g, src)[i].to == dst && r == Out(g, src)[i].rate)
            || (exists i :: 0 <= i < |Out(g, src)| && TwoHopRate(g, Out(g, src)[i], dst, r))
  {
    var es := Out(g, src);
    if FirstTo(es, dst).Some? {
      var j :| 0 <= j < |es| && es[j] == FirstTo(es, dst).value && es[j].to == dst;
      assert Resolve(g, src, dst).value == es[j].rate;
    } else {
      ViaIsPathRate(g, es, dst, r);
    }
  }

  /** Symbols are compared after upper-casing, so "btc"/"USD" and "BTC"/"usd" resolve alike. */
  lemma CaseInsensitiveExample(g: Graph)
    ensures Resolve(g, Upper("btc"), Upper("USD")) == Resolve(g, Upper("BTC"), Upper("usd"))
  {
    UpperCaseBlind("btc", "BTC");
    UpperCaseBlind("usd", "USD");
  }

  // ---------------------------------------------------------------------
  // Ghost definitions used by the search's proof

  /** The two-hop rate a queue entry at depth 1 leads to; entries at other depths lead to none. */
  function HitQ(g: Graph, q: Entry, dst: string): Option<real> {
    if q.depth == 1 then Reach(g, q.node, q.rate, dst) else None
  }

  /** The first rate the depth-1 entries of `queue` lead to, in queue order. */
  ghost function ViaQueue(g: Graph, queue: seq<Entry>, dst: string): Option<real> {
    if queue == [] then None
    else
      match HitQ(g, queue[0], dst)
      case Some(r) => Some(r)
      case None => ViaQueue(g, queue[1..], dst)
  }

  /** The number of depth-1 entries of `queue`. */
  ghost function DepthOneCount(queue: seq<Entry>): nat {
    if queue == [] then 0 else (if queue[0].depth == 1 then 1 else 0) + DepthOneCount(queue[1..])
  }

  ghost predicate DepthsWithin(queue: seq<Entry>, lo: nat, hi: nat) {
    forall k :: 0 <= k < |queue| ==> lo <= queue[k].depth <= hi
  }

  lemma DepthsWithinTail(queue: seq<Entry>, lo: nat, hi: nat)
    requires queue != [] && DepthsWithin(queue, lo, hi)
    ensures DepthsWithin(queue[1..], lo, hi)
  {
    assert forall k :: 0 <= k < |queue| - 1 ==> queue[1..][k] == queue[k + 1];
  }

  lemma DepthsWithinAppend(a: seq<Entry>, b: seq<Entry>, lo: nat, hi: nat)
    requires DepthsWithin(a, lo, hi) && DepthsWithin(b, lo, hi)
    ensures DepthsWithin(a + b, lo, hi)
  {
    assert forall k :: 0 <= k < |b| ==> (a + b)[|a| + k] == b[k];
  }

  /** The set of keys in a sequence of keys. */
  ghost function KeySet(keys: seq<(string, nat)>): set<(string, nat)> {
    set k | k in keys
  }

  ghost predicate Distinct<T>(s: seq<T>) {
    forall a, b :: 0 <= a < b < |s| ==> s[a] != s[b]
  }

  /** The keys of the entries of `queue`, in order. */
  ghost function Keys(queue: seq<Entry>): seq<(string, nat)> {
    if queue == [] then [] else [Key(queue[0])] + Keys(queue[1..])
  }

  /**
   * `k` is the key `(x, d)` of a node the search can queue: the start node at
   * depth 0, a target of an edge from `src` at depth 1, or a target of an
   * edge from such a target at depth 2.
   */
  ghost predicate HopKey(g: Graph, src: string, k: (string, nat)) {
    if k.1 == 0 then k.0 == src
    else if k.1 == 1 then Hop(g, src, k.0)
    else k.1 == 2 && exists x :: Hop(g, src, x) && Hop(g, x, k.0)
  }

  /** The depth-2 keys of the targets of the targets of the edges `es`. */
  ghost function SecondKeys(g: Graph, es: seq<Edge>): set<(string, nat)> {
    if es == [] then {} else TargetKeys(Out(g, es[0].to), 2) + SecondKeys(g, es[1..])
  }

  /** The finite set of HopKeys from `src` (see ReachKeysHop). */
  ghost function ReachKeys(g: Graph, src: string): set<(string, nat)> {
    {(src, 0)} + TargetKeys(Out(g, src), 1) + SecondKeys(g, Out(g, src))
  }

  /** The keys of `s` at depth `d`. */
  ghost function OfDepth(s: set<(string, nat)>, d: nat): set<(string, nat)> {
    set k | k in s && k.1 == d
  }

  /** The depth-1 keys of the nodes in `done`. */
  ghost function DoneKeys(done: seq<string>): set<(string, nat)> {
    set x | x in done :: (x, 1)
  }

  /** The depth-2 keys of the targets of the nodes in `done`. */
  ghost function Expanded2(g: Graph, done: seq<string>): set<(string, nat)> {
    if done == [] then {}
    else Expanded2(g, done[..|done| - 1]) + TargetKeys(Out(g, done[|done| - 1]), 2)
  }

  /**
   * What the search has covered: every visited key is a HopKey, every queued
   * key is visited, once the start is expanded all its targets are visited
   * at depth 1, the targets of each expanded depth-1 node in `done` are
   * visited at depth 2, and each visited depth-1 key is either done or still
   * queued.
   */
  ghost predicate Tracked(g: Graph, src: string, start: seq<Edge>, expanded: bool, queue: seq<Entry>,
                          visited: set<(string, nat)>, done: seq<string>)
  {
    && visited <= ReachKeys(g, src)
    && KeySet(Keys(queue)) <= visited
    && (expanded ==> TargetKeys(start, 1) <= visited)
    && Expanded2(g, done) <= visited
    && (expanded ==> OfDepth(visited, 1) <= DoneKeys(done) + KeySet(Keys(queue)))
  }

  /**
   * The invariant of the search loop from `src` to `dst`. Before the start
   * entry is expanded, it is the only entry and the only visited key.
   * Afterwards `src` has no edge to `dst`, the queue holds entries at depths
   * 1 and 2, and the first two-hop rate its depth-1 entries lead to is Via's.
   * The visited keys, among them the start key, are exactly the history's,
   * which never repeats, and the search is Tracked.
   */
  ghost predicate SearchInv(g: Graph, src: string, dst: string, expanded: bool, queue: seq<Entry>,
                            visited: set<(string, nat)>, done: seq<string>, enqueued: seq<(string, nat)>)
  {
    && src != dst
    && (!expanded ==> queue == [Entry(src, 1.0, 0)] && visited == {(src, 0)} && done == [])
    && (expanded ==> FirstTo(Out(g, src), dst) == None && DepthsWithin(queue, 1, 2)
                     && ViaQueue(g, queue, dst) == Via(g, Out(g, src), dst))
    && visited == KeySet(enqueued) && Distinct(enqueued) && (src, 0) in visited
    && Tracked(g, src, Out(g, src), expanded, queue, visited, done)
  }

  // ---------------------------------------------------------------------
  // Lemmas used by the search's proof

  lemma FirstToAt(es: seq<Edge>, dst: string, i: nat)
    requires i < |es| && es[i].to == dst && FirstTo(es[..i], dst) == None
    ensures FirstTo(es, dst) == Some(es[i])
  {
    assert forall k :: 0 <= k < i ==> es[..i][k] == es[k];
  }

  lemma FirstToSnoc(es: seq<Edge>, e: Edge, dst: string)
    requires FirstTo(es, dst) == None && e.to != dst
    ensures FirstTo(es + [e], dst) == None
  {
    assert forall k :: 0 <= k < |es| ==> (es + [e])[k] == es[k];
  }

  lemma ReachOf(g: Graph, node: string, rate: real, dst: string, e: Edge)
    requires FirstTo(Out(g, node), dst) == Some(e)
    ensures Reach(g, node, rate, dst).Some? && Reach(g, node, rate, dst).value == rate * e.rate
  {
  }

  /** Without a direct edge, the search resolves through the first neighbour that has an edge to `dst`. */
  lemma ResolveViaNeighbour(g: Graph, src: string, dst: string, i: nat)
    requires src != dst && !Hop(g, src, dst)
    requires i < |Out(g, src)| && Hop(g, Out(g, src)[i].to, dst)
    requires forall k :: 0 <= k < i ==> !Hop(g, Out(g, src)[k].to, dst)
    ensures Resolve(g, src, dst) == Reach(g, Out(g, src)[i].to, Out(g, src)[i].rate, dst)
  {
    assert FirstTo(Out(g, src), dst).None?;
    ResolveVia(g, src, dst);
    ViaFirst(g, Out(g, src), dst, i);
  }

  lemma ResolveVia(g: Graph, src: string, dst: string)
    requires src != dst && FirstTo(Out(g, src), dst).None?
    ensures Resolve(g, src, dst) == Via(g, Out(g, src), dst)
  {
  }

  /**
   * After the start node is expanded without reaching `dst`, the queue holds
   * depth-1 entries whose two-hop rates are Via's. The parameters repeat the
   * caller's own terms (`rest` is the empty rest of the queue, `node`, `rate`
   * and `d` the start entry's fields), so that the conclusions match them.
   */
  lemma ExpandedStart(g: Graph, src: string, dst: string, rest: seq<Entry>, node: string, rate: real, d: nat,
                      seen: set<(string, nat)>)
    requires rest == [] && node == src && rate == 1.0 && d == 1 && seen == {(src, 0)}
    requires Reach(g, src, 1.0, dst).None?
    ensures FirstTo(Out(g, src), dst) == None
    ensures DepthsWithin(rest + Fresh(Out(g, node), rate, d, seen), 1, 2)
    ensures ViaQueue(g, rest + Fresh(Out(g, node), rate, d, seen), dst) == Via(g, Out(g, src), dst)
  {
    var added := Fresh(Out(g, src), 1.0, 1, seen);
    assert rest + added == added;
    FreshDepths(Out(g, src), 1.0, 1, seen);
    ViaQueueFresh(g, Out(g, src), dst, seen);
  }

  /**
   * After a depth-1 entry is expanded without reaching `dst`, the rest of the
   * queue followed by the new depth-2 entries still leads to Via's rate, with
   * one depth-1 entry fewer.
   */
  lemma ExpandedDepthOne(g: Graph, dst: string, start: seq<Edge>, before: seq<Entry>, node: string, rate: real, d: nat,
                         seen: set<(string, nat)>)
    requires before != [] && before[0] == Entry(node, rate, 1) && d == 2 && DepthsWithin(before, 1, 2)
    requires ViaQueue(g, before, dst) == Via(g, start, dst)
    requires Reach(g, node, rate, dst).None?
    ensures DepthsWithin(before[1..] + Fresh(Out(g, node), rate, d, seen), 1, 2)
    ensures ViaQueue(g, before[1..] + Fresh(Out(g, node), rate, d, seen), dst) == Via(g, start, dst)
    ensures DepthOneCount(before[1..] + Fresh(Out(g, node), rate, d, seen)) < DepthOneCount(before)
  {
    var rest := before[1..];
    var added := Fresh(Out(g, node), rate, 2, seen);
    DepthsWithinTail(before, 1, 2);
    FreshDepths(Out(g, node), rate, 2, seen);
    DepthsWithinAppend(rest, added, 1, 2);
    ViaQueueDeeper(g, rest, added, dst);
  }

  /** Recording the keys of the entries one expansion enqueues keeps the key history exact and free of repeats. */
  lemma RecordKeys(enqueued: seq<(string, nat)>, seen: set<(string, nat)>, es: seq<Edge>, rate: real, depth: nat)
    requires seen == KeySet(enqueued) && Distinct(enqueued)
    ensures seen + TargetKeys(es, depth) == KeySet(enqueued + Keys(Fresh(es, rate, depth, seen)))
    ensures Distinct(enqueued + Keys(Fresh(es, rate, depth, seen)))
  {
    var more := Keys(Fresh(es, rate, depth, seen));
    FreshKeys(es, rate, depth, seen);
    EnqueueKeysDistinct(enqueued, more);
  }

  /** A rate found while expanding the start node is the rate of its first edge to `dst`. */
  lemma FoundDirect(g: Graph, src: string, dst: string, found: Option<real>)
    requires src != dst && found.Some? && found == Reach(g, src, 1.0, dst)
    ensures found == Resolve(g, src, dst)
  {
    var e := FirstTo(Out(g, src), dst).value;
    ReachOf(g, src, 1.0, dst, e);
    assert Resolve(g, src, dst).value == e.rate;
  }

  /** A rate found while expanding the head of the queue at depth 1 is the first two-hop rate. */
  lemma FoundTwoHops(g: Graph, start: seq<Edge>, src: string, dst: string, queue: seq<Entry>, found: Option<real>)
    requires src != dst && start == Out(g, src) && FirstTo(start, dst) == None
    requires queue != [] && queue[0].depth == 1
    requires ViaQueue(g, queue, dst) == Via(g, start, dst)
    requires found.Some? && found == Reach(g, queue[0].node, queue[0].rate, dst)
    ensures found == Resolve(g, src, dst)
  {
    assert HitQ(g, queue[0], dst) == found;
    assert ViaQueue(g, queue, dst).value == found.value;
  }

  /** Passing over edge `i`, which does not reach `dst`: how the scanned prefix and the pending suffix advance. */
  lemma ExpandStep(edges: seq<Edge>, i: nat, rate: real, depth: nat, visited: set<(string, nat)>, dst: string)
    requires i < |edges| && edges[i].to != dst && FirstTo(edges[..i], dst) == None
    ensures FirstTo(edges[..i + 1], dst) == None
    ensures edges[i..] != [] && edges[i..][0] == edges[i] && edges[i..][1..] == edges[i + 1..]
    ensures TargetKeys(edges[i..], depth) == {(edges[i].to, depth)} + TargetKeys(edges[i + 1..], depth)
    ensures (edges[i].to, depth) in visited
            ==> Fresh(edges[i..], rate, depth, visited) == Fresh(edges[i + 1..], rate, depth, visited)
  {
    assert edges[..i + 1] == edges[..i] + [edges[i]];
    FirstToSnoc(edges[..i], edges[i], dst);
    assert edges[i..][1..] == edges[i + 1..];
  }

  lemma FreshUnvisited(es: seq<Edge>, rate: real, depth: nat, visited: set<(string, nat)>, q: Entry)
    requires es != [] && (es[0].to, depth) !in visited
    requires q == Entry(es[0].to, rate * es[0].rate, depth)
    ensures Fresh(es, rate, depth, visited) == [q] + Fresh(es[1..], rate, depth, visited + {Key(q)})
  {
  }

  /** The entries of Fresh all sit at `depth`; their keys are new, distinct, and exactly the edge targets' keys. */
  lemma FreshKeys(es: seq<Edge>, rate: real, depth: nat, visited: set<(string, nat)>)
    ensures DepthsWithin(Fresh(es, rate, depth, visited), depth, depth)
    ensures Distinct(Keys(Fresh(es, rate, depth, visited)))
    ensures forall k :: k in Keys(Fresh(es, rate, depth, visited)) ==> k !in visited && k.1 == depth
    ensures visited + KeySet(Keys(Fresh(es, rate, depth, visited))) == visited + TargetKeys(es, depth)
  {
    FreshDepths(es, rate, depth, visited);
    FreshKeysNew(es, rate, depth, visited);
    FreshKeysDistinct(es, rate, depth, visited);
    FreshKeySet(es, rate, depth, visited);
  }

  lemma {:induction false} FreshDepths(es: seq<Edge>, rate: real, depth: nat, visited: set<(string, nat)>)
    ensures DepthsWithin(Fresh(es, rate, depth, visited), depth, depth)
  {
    if es != [] {
      var k := (es[0].to, depth);
      if k in visited {
        FreshDepths(es[1..], rate, depth, visited);
      } else {
        FreshDepths(es[1..], rate, depth, visited + {k});
      }
    }
  }

  lemma {:induction false} FreshKeysNew(es: seq<Edge>, rate: real, depth: nat, visited: set<(string, nat)>)
    ensures forall k :: k in Keys(Fresh(es, rate, depth, visited)) ==> k !in visited && k.1 == depth
  {
    if es != [] {
      var k := (es[0].to, depth);
      if k in visited {
        FreshKeysNew(es[1..], rate, depth, visited);
      } else {
        var tail := Fresh(es[1..], rate, depth, visited + {k});
        FreshKeysNew(es[1..], rate, depth, visited + {k});
        assert Keys(Fresh(es, rate, depth, visited)) == [k] + Keys(tail);
      }
    }
  }

  lemma {:induction false} FreshKeysDistinct(es: seq<Edge>, rate: real, depth: nat, visited: set<(string, nat)>)
    ensures Distinct(Keys(Fresh(es, rate, depth, visited)))
  {
    if es != [] {
      var k := (es[0].to, depth);
      if k in visited {
        FreshKeysDistinct(es[1..], rate, depth, visited);
      } else {
        var v' := visited + {k};
        var tail := Fresh(es[1..], rate, depth, v');
        FreshKeysDistinct(es[1..], rate, depth, v');
        FreshKeysNew(es[1..], rate, depth, v');
        var ks := Keys(Fresh(es, rate, depth, visited));
        assert ks == [k] + Keys(tail);
        forall a, b | 0 <= a < b < |ks|
          ensures ks[a] != ks[b]
        {
          assert ks[b] == Keys(tail)[b - 1];
          if a == 0 {
            assert Keys(tail)[b - 1] in Keys(tail);
          } else {
            assert ks[a] == Keys(tail)[a - 1];
          }
        }
      }
    }
  }

  lemma {:induction false} FreshKeySet(es: seq<Edge>, rate: real, depth: nat, visited: set<(string, nat)>)
    ensures visited + KeySet(Keys(Fresh(es, rate, depth, visited))) == visited + TargetKeys(es, depth)
  {
    if es != [] {
      var k := (es[0].to, depth);
      if k in visited {
        FreshKeySet(es[1..], rate, depth, visited);
      } else {
        var tail := Fresh(es[1..], rate, depth, visited + {k});
        FreshKeySet(es[1..], rate, depth, visited + {k});
        assert Keys(Fresh(es, rate, depth, visited)) == [k] + Keys(tail);
        assert KeySet([k] + Keys(tail)) == {k} + KeySet(Keys(tail));
      }
    }
  }

  /** Recording the keys of newly enqueued entries keeps the key history free of repeats. */
  lemma EnqueueKeysDistinct(enqueued: seq<(string, nat)>, more: seq<(string, nat)>)
    requires Distinct(enqueued) && Distinct(more)
    requires forall k :: k in more ==> k !in KeySet(enqueued)
    ensures Distinct(enqueued + more)
    ensures KeySet(enqueued + more) == KeySet(enqueued) + KeySet(more)
  {
    var s := enqueued + more;
    forall a, b | 0 <= a < b < |s|
      ensures s[a] != s[b]
    {
      if b >= |enqueued| && a < |enqueued| {
        assert s[b] == more[b - |enqueued|];
        assert s[b] in more;
        assert s[a] in KeySet(enqueued);
      }
    }
  }

  /** Expanding the start node queues, in order, entries whose two-hop rates are exactly Via's. */
  lemma {:induction false} ViaQueueFresh(g: Graph, es: seq<Edge>, dst: string, visited: set<(string, nat)>)
    requires forall x :: (x, 1) in visited ==> !Hop(g, x, dst)
    ensures ViaQueue(g, Fresh(es, 1.0, 1, visited), dst) == Via(g, es, dst)
  {
    if es != [] {
      var e := es[0];
      var k := (e.to, 1);
      if k in visited {
        ViaQueueFresh(g, es[1..], dst, visited);
      } else {
        var tail := Fresh(es[1..], 1.0, 1, visited + {k});
        var q := Entry(e.to, 1.0 * e.rate, 1);
        assert Fresh(es, 1.0, 1, visited) == [q] + tail;
        assert ([q] + tail)[1..] == tail;
        assert HitQ(g, q, dst) == Reach(g, e.to, e.rate, dst);
        if Reach(g, e.to, e.rate, dst).None? {
          ViaQueueFresh(g, es[1..], dst, visited + {k});
        }
      }
    }
  }

  /** Entries beyond depth 1 change neither the first two-hop rate of the queue nor its depth-1 count. */
  lemma {:induction false} ViaQueueDeeper(g: Graph, queue: seq<Entry>, more: seq<Entry>, dst: string)
    requires DepthsWithin(more, 2, 2)
    ensures ViaQueue(g, queue + more, dst) == ViaQueue(g, queue, dst)
    ensures DepthOneCount(queue + more) == DepthOneCount(queue)
  {
    if queue == [] {
      ViaQueueDeepOnly(g, more, dst);
      assert queue + more == more;
    } else {
      assert (queue + more)[1..] == queue[1..] + more;
      ViaQueueDeeper(g, queue[1..], more, dst);
    }
  }

  lemma {:induction false} ViaQueueDeepOnly(g: Graph, more: seq<Entry>, dst: string)
    requires DepthsWithin(more, 2, 2)
    ensures ViaQueue(g, more, dst) == None && DepthOneCount(more) == 0
  {
    if more != [] {
      ViaQueueDeepOnly(g, more[1..], dst);
    }
  }

  /** The key `(x, d')` is one of `es`'s target keys at depth `d` exactly when `d' == d` and some edge of `es` reaches `x`. */
  lemma {:induction false} TargetKeysMember(es: seq<Edge>, d: nat, x: string, d': nat)
    ensures (x, d') in TargetKeys(es, d) <==> d' == d && exists j :: 0 <= j < |es| && es[j].to == x
  {
    if es != [] {
      TargetKeysMember(es[1..], d, x, d');
      if d' == d && es[0].to != x && exists j :: 0 <= j < |es| && es[j].to == x {
        var j :| 0 <= j < |es| && es[j].to == x;
        assert es[1..][j - 1] == es[j];
      }
    }
  }

  lemma TargetKeysHop(g: Graph, n: string, d: nat, x: string, d': nat)
    ensures (x, d') in TargetKeys(Out(g, n), d) <==> d' == d && Hop(g, n, x)
  {
    TargetKeysMember(Out(g, n), d, x, d');
  }

  /** A depth-2 key lies in SecondKeys exactly when some edge of `es` leads to a node with an edge to it. */
  lemma {:induction false} SecondKeysMember(g: Graph, es: seq<Edge>, y: string, d: nat)
    ensures (y, d) in SecondKeys(g, es) <==> d == 2 && exists i :: 0 <= i < |es| && Hop(g, es[i].to, y)
  {
    if es != [] {
      SecondKeysMember(g, es[1..], y, d);
      TargetKeysHop(g, es[0].to, 2, y, d);
      if d == 2 && !Hop(g, es[0].to, y) && exists i :: 0 <= i < |es| && Hop(g, es[i].to, y) {
        var i :| 0 <= i < |es| && Hop(g, es[i].to, y);
        assert i != 0;
        assert es[1..][i - 1] == es[i];
      }
    }
  }

  /** ReachKeys holds exactly the HopKeys. */
  lemma ReachKeysHop(g: Graph, src: string, k: (string, nat))
    ensures k in ReachKeys(g, src) <==> HopKey(g, src, k)
  {
    var es := Out(g, src);
    TargetKeysHop(g, src, 1, k.0, k.1);
    SecondKeysMember(g, es, k.0, k.1);
    if k.1 == 2 {
      if k in SecondKeys(g, es) {
        var i :| 0 <= i < |es| && Hop(g, es[i].to, k.0);
        assert Hop(g, src, es[i].to);
      }
      if HopKey(g, src, k) {
        var x :| Hop(g, src, x) && Hop(g, x, k.0);
        var i :| 0 <= i < |es| && es[i].to == x;
      }
    }
  }

  lemma {:induction false} TargetKeysDepth(es: seq<Edge>, d: nat)
    ensures OfDepth(TargetKeys(es, d), d) == TargetKeys(es, d)
    ensures forall d' :: d' != d ==> OfDepth(TargetKeys(es, d), d') == {}
  {
    if es != [] {
      TargetKeysDepth(es[1..], d);
    }
  }

  lemma {:induction false} KeysAppend(a: seq<Entry>, b: seq<Entry>)
    ensures KeySet(Keys(a + b)) == KeySet(Keys(a)) + KeySet(Keys(b))
  {
    if a != [] {
      KeysAppend(a[1..], b);
      assert (a + b)[1..] == a[1..] + b;
      assert Keys(a + b) == [Key(a[0])] + Keys(a[1..] + b);
      assert KeySet([Key(a[0])] + Keys(a[1..] + b)) == {Key(a[0])} + KeySet(Keys(a[1..] + b));
      assert KeySet([Key(a[0])] + Keys(a[1..])) == {Key(a[0])} + KeySet(Keys(a[1..]));
    } else {
      assert a + b == b;
    }
  }

  lemma KeysPop(q: seq<Entry>)
    requires q != []
    ensures KeySet(Keys(q)) == {Key(q[0])} + KeySet(Keys(q[1..]))
  {
    assert KeySet([Key(q[0])] + Keys(q[1..])) == {Key(q[0])} + KeySet(Keys(q[1..]));
  }

  /** The targets of every node in `done` are among Expanded2's keys. */
  lemma {:induction false} ExpandedHas(g: Graph, done: seq<string>, x: string)
    requires x in done
    ensures TargetKeys(Out(g, x), 2) <= Expanded2(g, done)
  {
    var last := |done| - 1;
    if done[last] != x {
      assert x in done[..last] by {
        var i :| 0 <= i < |done| && done[i] == x;
        assert done[..last][i] == x;
      }
      ExpandedHas(g, done[..last], x);
    }
  }

  /** When every target of `es` is done at depth 1, the second hops through `es` are all expanded. */
  lemma {:induction false} SecondKeysCovered(g: Graph, es: seq<Edge>, done: seq<string>)
    requires TargetKeys(es, 1) <= DoneKeys(done)
    ensures SecondKeys(g, es) <= Expanded2(g, done)
  {
    if es != [] {
      assert (es[0].to, 1) in DoneKeys(done);
      ExpandedHas(g, done, es[0].to);
      SecondKeysCovered(g, es[1..], done);
    }
  }

  /** The search starts tracked: only the start key is visited and queued. */
  lemma TrackInit(g: Graph, src: string, start: seq<Edge>)
    ensures Tracked(g, src, start, false, [Entry(src, 1.0, 0)], {(src, 0)}, [])
  {
    KeysPop([Entry(src, 1.0, 0)]);
    assert [Entry(src, 1.0, 0)][1..] == [];
  }

  /** Dropping an entry deeper than 1 from the head of the queue keeps the search tracked. */
  lemma TrackSkip(g: Graph, src: string, start: seq<Edge>, expanded: bool, before: seq<Entry>,
                  visited: set<(string, nat)>, done: seq<string>)
    requires before != [] && before[0].depth >= 2
    requires Tracked(g, src, start, expanded, before, visited, done)
    ensures Tracked(g, src, start, expanded, before[1..], visited, done)
  {
    KeysPop(before);
  }

  /** Expanding the start entry visits every target of the start node at depth 1 and queues each of them. */
  lemma TrackStart(g: Graph, src: string, start: seq<Edge>, before: seq<Entry>, node: string, rate: real, d: nat,
                   seen: set<(string, nat)>)
    requires before == [Entry(src, 1.0, 0)] && start == Out(g, src)
    requires node == src && rate == 1.0 && d == 1 && seen == {(src, 0)}
    ensures Tracked(g, src, start, true, before[1..] + Fresh(Out(g, node), rate, d, seen),
                    seen + TargetKeys(Out(g, node), d), [])
  {
    var added := Fresh(start, 1.0, 1, seen);
    assert before[1..] + added == added;
    FreshKeys(start, 1.0, 1, seen);
    TargetKeysDepth(start, 1);
  }

  /**
   * Expanding a depth-1 entry visits every target of its node at depth 2,
   * so the node is done, and the new depth-2 keys are two hops from `src`.
   */
  lemma TrackDepthOne(g: Graph, src: string, start: seq<Edge>, before: seq<Entry>, node: string, rate: real, d: nat,
                      seen: set<(string, nat)>, done: seq<string>)
    requires before != [] && before[0] == Entry(node, rate, 1) && d == 2
    requires Tracked(g, src, start, true, before, seen, done)
    ensures Tracked(g, src, start, true, before[1..] + Fresh(Out(g, node), rate, d, seen),
                    seen + TargetKeys(Out(g, node), d), done + [node])
  {
    var rest := before[1..];
    var added := Fresh(Out(g, node), rate, 2, seen);
    var deeper := TargetKeys(Out(g, node), 2);
    KeysPop(before);
    DeeperReachable(g, src, node);
    FreshKeys(Out(g, node), rate, 2, seen);
    KeysAppend(rest, added);
    ExpandedSnoc(g, done, node);
    TargetKeysDepth(Out(g, node), 2);
    PendingDepthOne(seen, deeper, done, node, KeySet(Keys(rest)), KeySet(Keys(added)));
  }

  /** The depth-2 targets of a depth-1 HopKey node are HopKeys. */
  lemma DeeperReachable(g: Graph, src: string, node: string)
    requires (node, 1) in ReachKeys(g, src)
    ensures TargetKeys(Out(g, node), 2) <= ReachKeys(g, src)
  {
    ReachKeysHop(g, src, (node, 1));
    forall k | k in TargetKeys(Out(g, node), 2)
      ensures k in ReachKeys(g, src)
    {
      TargetKeysHop(g, node, 2, k.0, k.1);
      ReachKeysHop(g, src, k);
    }
  }

  lemma ExpandedSnoc(g: Graph, done: seq<string>, node: string)
    ensures Expanded2(g, done + [node]) == Expanded2(g, done) + TargetKeys(Out(g, node), 2)
  {
    assert (done + [node])[..|done|] == done;
  }

  /**
   * Marking `node` done while its depth-2 targets `deeper` become visited
   * keeps every visited depth-1 key done or queued.
   */
  lemma PendingDepthOne(seen: set<(string, nat)>, deeper: set<(string, nat)>, done: seq<string>, node: string,
                        rest: set<(string, nat)>, added: set<(string, nat)>)
    requires OfDepth(seen, 1) <= DoneKeys(done) + ({(node, 1)} + rest)
    requires OfDepth(deeper, 1) == {}
    ensures OfDepth(seen + deeper, 1) <= DoneKeys(done + [node]) + (rest + added)
  {
    assert OfDepth(seen + deeper, 1) == OfDepth(seen, 1) + OfDepth(deeper, 1);
    assert DoneKeys(done + [node]) == DoneKeys(done) + {(node, 1)};
  }

  /** Every key of the history is a HopKey at most two deep, since the history's keys are the visited ones. */
  lemma HistoryReachable(g: Graph, src: string, enqueued: seq<(string, nat)>, visited: set<(string, nat)>)
    requires visited == KeySet(enqueued) && visited <= ReachKeys(g, src)
    ensures forall k :: k in enqueued ==> HopKey(g, src, k) && k.1 <= 2
  {
    forall k | k in enqueued
      ensures HopKey(g, src, k) && k.1 <= 2
    {
      assert k in visited;
      ReachKeysHop(g, src, k);
    }
  }

  /**
   * When the queue runs dry the search has recorded every HopKey: the start
   * key, each target of the start node at depth 1, and, since every
   * depth-1 node was expanded, each of their targets at depth 2.
   */
  lemma SearchComplete(g: Graph, src: string, start: seq<Edge>, visited: set<(string, nat)>, done: seq<string>,
                       enqueued: seq<(string, nat)>)
    requires start == Out(g, src) && Tracked(g, src, start, true, [], visited, done)
    requires visited == KeySet(enqueued) && (src, 0) in visited
    ensures forall k :: HopKey(g, src, k) ==> k in enqueued
  {
    assert KeySet(Keys([])) == {};
    TargetKeysDepth(start, 1);
    SecondKeysCovered(g, start, done);
    forall k | HopKey(g, src, k)
      ensures k in enqueued
    {
      ReachKeysHop(g, src, k);
      assert k in visited;
    }
  }

  /** The search invariant holds once the start entry is queued and visited. */
  lemma SearchInit(g: Graph, src: string, dst: string)
    requires src != dst
    ensures SearchInv(g, src, dst, false, [Entry(src, 1.0, 0)], {(src, 0)}, [], [(src, 0)])
  {
    TrackInit(g, src, Out(g, src));
    assert KeySet([(src, 0)]) == {(src, 0)};
  }

  /** Dropping a depth-2 entry (one exists only after the start is expanded) keeps the invariant and the depth-1 count. */
  lemma SkipStep(g: Graph, src: string, dst: string, before: seq<Entry>,
                 visited: set<(string, nat)>, done: seq<string>, enqueued: seq<(string, nat)>)
    requires before != [] && before[0].depth >= 2
    requires SearchInv(g, src, dst, true, before, visited, done, enqueued)
    ensures SearchInv(g, src, dst, true, before[1..], visited, done, enqueued)
    ensures DepthOneCount(before[1..]) == DepthOneCount(before)
  {
    DepthsWithinTail(before, 1, 2);
    assert HitQ(g, before[0], dst) == None;
    TrackSkip(g, src, Out(g, src), true, before, visited, done);
  }

  /** A rate found while expanding the head of the queue is the resolved rate. */
  lemma FoundStep(g: Graph, src: string, dst: string, expanded: bool, before: seq<Entry>,
                  visited: set<(string, nat)>, done: seq<string>, enqueued: seq<(string, nat)>, found: Option<real>)
    requires SearchInv(g, src, dst, expanded, before, visited, done, enqueued)
    requires before != [] && before[0].depth < 2
    requires found.Some? && found == Reach(g, before[0].node, before[0].rate, dst)
    ensures found == Resolve(g, src, dst)
    ensures Distinct(enqueued)
    ensures forall k :: k in enqueued ==> HopKey(g, src, k) && k.1 <= 2
  {
    if expanded {
      assert before[0].depth == 1;
      FoundTwoHops(g, Out(g, src), src, dst, before, found);
    } else {
      FoundDirect(g, src, dst, found);
    }
    HistoryReachable(g, src, enqueued, visited);
  }

  /**
   * Expanding the head entry at depth 0 or 1 without reaching `dst` keeps the
   * invariant, with the new entries queued, their keys recorded and a
   * depth-1 node marked done; it expands the start entry or removes a
   * depth-1 entry.
   */
  lemma AdvanceStep(g: Graph, src: string, dst: string, expanded: bool, before: seq<Entry>,
                    seen: set<(string, nat)>, done: seq<string>, enqueued: seq<(string, nat)>,
                    node: string, rate: real, depth: nat)
    requires SearchInv(g, src, dst, expanded, before, seen, done, enqueued)
    requires before != [] && before[0] == Entry(node, rate, depth) && depth < 2
    requires Reach(g, node, rate, dst).None?
    ensures SearchInv(g, src, dst, true, before[1..] + Fresh(Out(g, node), rate, depth + 1, seen),
                      seen + TargetKeys(Out(g, node), depth + 1),
                      if depth == 0 then done else done + [node],
                      enqueued + Keys(Fresh(Out(g, node), rate, depth + 1, seen)))
    ensures expanded ==> DepthOneCount(before[1..] + Fresh(Out(g, node), rate, depth + 1, seen)) < DepthOneCount(before)
  {
    RecordKeys(enqueued, seen, Out(g, node), rate, depth + 1);
    if expanded {
      assert depth == 1;
      ExpandedDepthOne(g, dst, Out(g, src), before, node, rate, depth + 1, seen);
      TrackDepthOne(g, src, Out(g, src), before, node, rate, depth + 1, seen, done);
    } else {
      ExpandedStart(g, src, dst, before[1..], node, rate, depth + 1, seen);
      TrackStart(g, src, Out(g, src), before, node, rate, depth + 1, seen);
    }
  }

  /**
   * When the queue runs dry, nothing was found: the resolved rate is None,
   * and the history holds exactly the HopKeys, each once.
   */
  lemma FinishNone(g: Graph, src: string, dst: string, expanded: bool, visited: set<(string, nat)>,
                   done: seq<string>, enqueued: seq<(string, nat)>)
    requires SearchInv(g, src, dst, expanded, [], visited, done, enqueued)
    ensures Resolve(g, src, dst) == None
    ensures Distinct(enqueued)
    ensures forall k :: k in enqueued ==> HopKey(g, src, k) && k.1 <= 2
    ensures forall k :: HopKey(g, src, k) ==> k in enqueued
  {
    assert expanded;
    ResolveVia(g, src, dst);
    HistoryReachable(g, src, enqueued, visited);
    SearchComplete(g, src, Out(g, src), visited, done, enqueued);
  }
}
