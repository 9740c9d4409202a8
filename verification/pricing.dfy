/**
 * The conversion graph of the rate engine: tickers, edges, the graph, and
 * the two builders (current prices and prices 24 hours ago).
 *
 * Rates are modelled as `real`. The service computes with Python `Decimal`,
 * whose division rounds to the context precision (28 significant digits by
 * default), so facts such as `p * (1 / p) == 1` hold exactly only in this
 * real-valued model.
 */
module Pricing {
  import opened Symbols

  datatype Option<T> = None | Some(value: T)

  /** One market pair: one `base` unit is worth `lastPrice` units of `quote`. */
  datatype Ticker = Ticker(base: string, quote: string, lastPrice: real, variation24h: real)

  /** A directed conversion step: an amount in the source currency times `rate` is the amount in `to`. */
  datatype Edge = Edge(to: string, rate: real)

  /** Every currency symbol mapped to its outgoing edges, in insertion order. */
  type Graph = map<string, seq<Edge>>

  /** An edge together with the node it leaves. */
  datatype Arc = Arc(from: string, edge: Edge)

  /** Which price a builder reads from a ticker. */
  datatype Prices = Current | DayAgo

  /** The outgoing edges of `n`, empty for a node the graph does not hold (`graph.get(n, [])`). */
  function Out(g: Graph, n: string): seq<Edge> {
    if n in g then g[n] else []
  }

  /** Appends one edge to the list of `from`, creating the list when absent (`setdefault(...).append(...)`). */
  function AddEdge(g: Graph, from: string, e: Edge): (g': Graph)
    ensures g'.Keys == g.Keys + {from}
    ensures Out(g', from) == Out(g, from) + [e]
    ensures forall n :: n != from ==> Out(g', n) == Out(g, n)
  {
    g[from := Out(g, from) + [e]]
  }

  /**
   * The price a ticker had 24 hours ago, from `last = previous * (1 + variation)`;
   * None when `1 + variation` is not positive.
   */
  function Price24hAgo(lastPrice: real, variation24h: real): (r: Option<real>)
    ensures r.None? <==> 1.0 + variation24h <= 0.0
    ensures r.Some? ==> r.value * (1.0 + variation24h) == lastPrice
  {
    var denom := 1.0 + variation24h;
    if denom <= 0.0 then None else Some(lastPrice / denom)
  }

  /** The reconstruction inverts a 10% rise: 110 after +10% was 100. */
  lemma Price24hAgoExample()
    ensures Price24hAgo(110.0, 0.10) == Some(100.0)
    ensures Price24hAgo(110.0, -1.0) == None
    ensures Price24hAgo(110.0, -1.5) == None
  {
  }

  /** A positive reconstructed price comes exactly from a positive last price. */
  lemma Price24hAgoSign(lastPrice: real, variation24h: real)
    requires 1.0 + variation24h > 0.0
    ensures Price24hAgo(lastPrice, variation24h).value > 0.0 <==> lastPrice > 0.0
  {
    var d := 1.0 + variation24h;
    var pv := lastPrice / d;
    assert pv * d == lastPrice;
    if pv > 0.0 {
      assert pv * d > 0.0;
    }
  }

  /**
   * The price for which a builder adds the ticker's two edges, or None when
   * the builder skips the ticker. The current-price builder skips a
   * non-positive last price; the 24h builder skips a ticker whose
   * reconstructed price is undefined or non-positive, which happens exactly
   * when the last price or `1 + variation` is non-positive.
   */
  function EdgePrice(t: Ticker, prices: Prices): (p: Option<real>)
    ensures p.Some? ==> p.value > 0.0
    ensures prices == Current ==> (p.Some? <==> t.lastPrice > 0.0)
    ensures prices == Current && p.Some? ==> p.value == t.lastPrice
    ensures prices == DayAgo ==> (p.Some? <==> t.lastPrice > 0.0 && 1.0 + t.variation24h > 0.0)
    ensures prices == DayAgo && p.Some? ==> p.value * (1.0 + t.variation24h) == t.lastPrice
  {
    match prices
    case Current => if t.lastPrice <= 0.0 then None else Some(t.lastPrice)
    case DayAgo =>
      var pv24 := Price24hAgo(t.lastPrice, t.variation24h);
      if pv24.Some? then Price24hAgoSign(t.lastPrice, t.variation24h); (if pv24.value <= 0.0 then None else pv24)
      else None
  }

  /**
   * The arcs one ticker contributes: none when it is skipped, otherwise the
   * forward edge BASE -> QUOTE at price p followed by the reverse edge
   * QUOTE -> BASE at 1/p, whose rates multiply to 1.
   */
  function TickerArcs(t: Ticker, prices: Prices): (arcs: seq<Arc>)
    ensures EdgePrice(t, prices).None? ==> arcs == []
    ensures EdgePrice(t, prices).Some? ==>
              && |arcs| == 2
              && arcs[0].from == arcs[1].edge.to == Upper(t.base)
              && arcs[1].from == arcs[0].edge.to == Upper(t.quote)
              && arcs[0].edge.rate == EdgePrice(t, prices).value
              && arcs[0].edge.rate * arcs[1].edge.rate == 1.0
  {
    match EdgePrice(t, prices)
    case None => []
    case Some(p) =>
      var base := Upper(t.base);
      var quote := Upper(t.quote);
      [Arc(base, Edge(quote, p)), Arc(quote, Edge(base, 1.0 / p))]
  }

  /** All arcs a ticker sequence contributes, ticker by ticker in order. */
  function Arcs(ts: seq<Ticker>, prices: Prices): seq<Arc> {
    if ts == [] then [] else Arcs(ts[..|ts| - 1], prices) + TickerArcs(ts[|ts| - 1], prices)
  }

  /** The number of tickers a builder does not skip. */
  function Usable(ts: seq<Ticker>, prices: Prices): nat {
    if ts == [] then 0
    else Usable(ts[..|ts| - 1], prices) + (if EdgePrice(ts[|ts| - 1], prices).Some? then 1 else 0)
  }

  /** The edges among `arcs` that leave `n`, in their order in `arcs`. */
  function Leaving(arcs: seq<Arc>, n: string): seq<Edge> {
    if arcs == [] then []
    else Leaving(arcs[..|arcs| - 1], n) + (if arcs[|arcs| - 1].from == n then [arcs[|arcs| - 1].edge] else [])
  }

  /** The nodes some arc leaves. */
  function Sources(arcs: seq<Arc>): set<string> {
    set a | a in arcs :: a.from
  }

  /** The graph made of `arcs`: each node some arc leaves, mapped to the edges leaving it, in arc order. */
  function GraphOf(arcs: seq<Arc>): Graph {
    map n | n in Sources(arcs) :: Leaving(arcs, n)
  }

  /** The graph `build_graph` returns. */
  function CurrentGraph(ts: seq<Ticker>): Graph {
    GraphOf(Arcs(ts, Current))
  }

  /** The graph `build_graph_24h` returns. */
  function DayAgoGraph(ts: seq<Ticker>): Graph {
    GraphOf(Arcs(ts, DayAgo))
  }

  lemma {:induction false} LeavingOutside(arcs: seq<Arc>, n: string)
    requires n !in Sources(arcs)
    ensures Leaving(arcs, n) == []
  {
    if arcs != [] {
      var init := arcs[..|arcs| - 1];
      assert arcs == init + [arcs[|arcs| - 1]];
      assert Sources(init) <= Sources(arcs);
      LeavingOutside(init, n);
    }
  }

  lemma ArcsSnoc(ts: seq<Ticker>, i: nat, prices: Prices)
    requires i < |ts|
    ensures Arcs(ts[..i + 1], prices) == Arcs(ts[..i], prices) + TickerArcs(ts[i], prices)
    ensures Usable(ts[..i + 1], prices) == Usable(ts[..i], prices) + (if EdgePrice(ts[i], prices).Some? then 1 else 0)
  {
    assert ts[..i + 1][..i] == ts[..i];
  }

  /** Adding one arc at the end of the list appends its edge to the list of its source node. */
  lemma GraphOfSnoc(arcs: seq<Arc>, a: Arc)
    ensures GraphOf(arcs + [a]) == AddEdge(GraphOf(arcs), a.from, a.edge)
  {
    var arcs' := arcs + [a];
    assert Sources(arcs') == Sources(arcs) + {a.from};
    var g, h := GraphOf(arcs'), AddEdge(GraphOf(arcs), a.from, a.edge);
    forall n | n in g.Keys
      ensures g[n] == h[n]
    {
      LeavingSnoc(arcs, a, n);
      OutIsLeaving(arcs, n);
    }
  }

  /** The edges leaving `n` after one more arc: those before, then the new arc's edge if it leaves `n`. */
  lemma LeavingSnoc(arcs: seq<Arc>, a: Arc, n: string)
    ensures Leaving(arcs + [a], n) == Leaving(arcs, n) + (if a.from == n then [a.edge] else [])
  {
    assert (arcs + [a])[..|arcs|] == arcs;
  }

  lemma GraphOfAppend(arcs: seq<Arc>, more: seq<Arc>)
    requires |more| <= 2
    ensures |more| == 0 ==> GraphOf(arcs + more) == GraphOf(arcs)
    ensures |more| == 1 ==> GraphOf(arcs + more) == AddEdge(GraphOf(arcs), more[0].from, more[0].edge)
    ensures |more| == 2 ==>
              GraphOf(arcs + more) == AddEdge(AddEdge(GraphOf(arcs), more[0].from, more[0].edge), more[1].from, more[1].edge)
  {
    if |more| == 0 {
      assert arcs + more == arcs;
    } else if |more| == 1 {
      assert arcs + more == arcs + [more[0]];
      GraphOfSnoc(arcs, more[0]);
    } else {
      assert arcs + more == (arcs + [more[0]]) + [more[1]];
      GraphOfSnoc(arcs, more[0]);
      GraphOfSnoc(arcs + [more[0]], more[1]);
    }
  }

  /**
   * build_graph: for every ticker with a positive last price, append the edge
   * BASE -> QUOTE at that price and then QUOTE -> BASE at its reciprocal.
   */
  method BuildGraph(tickers: seq<Ticker>) returns (graph: Graph)
    ensures graph == CurrentGraph(tickers)
  {
    graph := map[];
    for i := 0 to |tickers|
      invariant graph == GraphOf(Arcs(tickers[..i], Current))
    {
      var t := tickers[i];
      ArcsSnoc(tickers, i, Current);
      GraphOfAppend(Arcs(tickers[..i], Current), TickerArcs(t, Current));
      if t.lastPrice <= 0.0 {
        continue;
      }
      var base := Upper(t.base);
      var quote := Upper(t.quote);
      var p := t.lastPrice;
      graph := AddEdge(graph, base, Edge(quote, p));
      graph := AddEdge(graph, quote, Edge(base, 1.0 / p));
    }
    assert tickers[..|tickers|] == tickers;
  }

  /**
   * build_graph_24h: like BuildGraph, with the price reconstructed for 24
   * hours ago in place of the last price; a ticker whose reconstruction is
   * undefined or non-positive is skipped.
   */
  method BuildGraph24h(tickers: seq<Ticker>) returns (graph: Graph)
    ensures graph == DayAgoGraph(tickers)
  {
    graph := map[];
    for i := 0 to |tickers|
      invariant graph == GraphOf(Arcs(tickers[..i], DayAgo))
    {
      var t := tickers[i];
      ArcsSnoc(tickers, i, DayAgo);
      GraphOfAppend(Arcs(tickers[..i], DayAgo), TickerArcs(t, DayAgo));
      var pv24 := Price24hAgo(t.lastPrice, t.variation24h);
      if pv24.None? || pv24.value <= 0.0 {
        continue;
      }
      var base := Upper(t.base);
      var quote := Upper(t.quote);
      graph := AddEdge(graph, base, Edge(quote, pv24.value));
      graph := AddEdge(graph, quote, Edge(base, 1.0 / pv24.value));
    }
    assert tickers[..|tickers|] == tickers;
  }

  // ---------------------------------------------------------------------
  // Properties of the built graphs

  /**
   * One more ticker changes the graph by exactly its two edges, appended in
   * order (forward, then reverse), or not at all when it is skipped.
   */
  lemma TickerAppendsPair(ts: seq<Ticker>, t: Ticker, prices: Prices)
    ensures EdgePrice(t, prices).None? ==> GraphOf(Arcs(ts + [t], prices)) == GraphOf(Arcs(ts, prices))
    ensures EdgePrice(t, prices).Some? ==>
      var p, base, quote := EdgePrice(t, prices).value, Upper(t.base), Upper(t.quote);
      GraphOf(Arcs(ts + [t], prices))
        == AddEdge(AddEdge(GraphOf(Arcs(ts, prices)), base, Edge(quote, p)), quote, Edge(base, 1.0 / p))
  {
    var ts' := ts + [t];
    assert ts'[..|ts'| - 1] == ts;
    GraphOfAppend(Arcs(ts, prices), TickerArcs(t, prices));
  }

  /**
   * Each node's edge list is exactly the sequence of contributed edges that
   * leave it, in ticker order; a node no edge leaves is absent.
   */
  lemma OutIsLeaving(arcs: seq<Arc>, n: string)
    ensures Out(GraphOf(arcs), n) == Leaving(arcs, n)
    ensures n in GraphOf(arcs) <==> n in Sources(arcs)
  {
    if n !in Sources(arcs) {
      LeavingOutside(arcs, n);
    }
  }

  /** Nothing is deduplicated: every contributed edge appears in its node's list as often as it was added. */
  lemma {:induction false} LeavingKeepsAll(arcs: seq<Arc>, n: string, e: Edge)
    ensures multiset(Leaving(arcs, n))[e] == multiset(arcs)[Arc(n, e)]
  {
    if arcs != [] {
      var init, last := arcs[..|arcs| - 1], arcs[|arcs| - 1];
      assert arcs == init + [last];
      LeavingKeepsAll(init, n, e);
    }
  }

  /** Two edges per usable ticker. */
  lemma {:induction false} ArcsCount(ts: seq<Ticker>, prices: Prices)
    ensures |Arcs(ts, prices)| == 2 * Usable(ts, prices)
  {
    if ts != [] {
      ArcsCount(ts[..|ts| - 1], prices);
    }
  }

  /** Every node and every edge target of a built graph is already in upper case. */
  lemma {:induction false} ArcsUpper(ts: seq<Ticker>, prices: Prices)
    ensures forall a :: a in Arcs(ts, prices) ==> Upper(a.from) == a.from && Upper(a.edge.to) == a.edge.to
  {
    if ts != [] {
      var t := ts[|ts| - 1];
      ArcsUpper(ts[..|ts| - 1], prices);
      UpperIdempotent(t.base);
      UpperIdempotent(t.quote);
    }
  }

  // ---------------------------------------------------------------------
  // Edge count

  /** The total length of the edge lists of the nodes in `keys`. */
  ghost function SumOut(g: Graph, keys: set<string>): nat
    requires keys <= g.Keys
    decreases keys
  {
    if keys == {} then 0 else var k :| k in keys; |g[k]| + SumOut(g, keys - {k})
  }

  /** The number of edges of a graph. */
  ghost function EdgeCount(g: Graph): nat {
    SumOut(g, g.Keys)
  }

  lemma {:induction false} SumOutRemove(g: Graph, keys: set<string>, k: string)
    requires keys <= g.Keys && k in keys
    ensures SumOut(g, keys) == |g[k]| + SumOut(g, keys - {k})
    decreases keys
  {
    var j :| j in keys && SumOut(g, keys) == |g[j]| + SumOut(g, keys - {j});
    if j != k {
      SumOutRemove(g, keys - {j}, k);
      SumOutRemove(g, keys - {k}, j);
      assert keys - {j} - {k} == keys - {k} - {j};
    }
  }

  lemma {:induction false} SumOutAgree(g: Graph, h: Graph, keys: set<string>)
    requires keys <= g.Keys && keys <= h.Keys
    requires forall k :: k in keys ==> g[k] == h[k]
    ensures SumOut(g, keys) == SumOut(h, keys)
    decreases keys
  {
    if keys != {} {
      var k :| k in keys;
      SumOutRemove(g, keys, k);
      SumOutRemove(h, keys, k);
      SumOutAgree(g, h, keys - {k});
    }
  }

  /** Appending one edge raises the edge count by one. */
  lemma EdgeCountAddEdge(g: Graph, from: string, e: Edge)
    ensures EdgeCount(AddEdge(g, from, e)) == EdgeCount(g) + 1
  {
    var h := AddEdge(g, from, e);
    var rest := g.Keys - {from};
    SumOutRemove(h, h.Keys, from);
    assert h.Keys - {from} == rest;
    SumOutAgree(g, h, rest);
    if from in g {
      SumOutRemove(g, g.Keys, from);
    } else {
      assert g.Keys == rest;
    }
  }

  lemma {:induction false} EdgeCountGraphOf(arcs: seq<Arc>)
    ensures EdgeCount(GraphOf(arcs)) == |arcs|
  {
    if arcs == [] {
      assert GraphOf(arcs).Keys == {};
    } else {
      var init, last := arcs[..|arcs| - 1], arcs[|arcs| - 1];
      assert arcs == init + [last];
      EdgeCountGraphOf(init);
      GraphOfSnoc(init, last);
      EdgeCountAddEdge(GraphOf(init), last.from, last.edge);
    }
  }

  /** A built graph holds exactly two edges per ticker the builder does not skip. */
  lemma EdgeCountTwicePerTicker(ts: seq<Ticker>, prices: Prices)
    ensures EdgeCount(GraphOf(Arcs(ts, prices))) == 2 * Usable(ts, prices)
  {
    EdgeCountGraphOf(Arcs(ts, prices));
    ArcsCount(ts, prices);
  }
}
