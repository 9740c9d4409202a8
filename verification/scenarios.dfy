/** Whole-engine scenarios: graphs built from tickers, then resolved. */
module Scenarios {
  import opened Symbols
  import opened Pricing
  import opened Resolver

  /** A one-ticker graph resolves BASE -> QUOTE to the price and QUOTE -> BASE to its reciprocal. */
  lemma SingleTicker(t: Ticker)
    requires t.lastPrice > 0.0 && Upper(t.base) != Upper(t.quote)
    ensures Resolve(CurrentGraph([t]), Upper(t.base), Upper(t.quote)) == Some(t.lastPrice)
    ensures Resolve(CurrentGraph([t]), Upper(t.quote), Upper(t.base)) == Some(1.0 / t.lastPrice)
  {
    var base, quote, p := Upper(t.base), Upper(t.quote), t.lastPrice;
    var g := CurrentGraph([t]);
    TickerAppendsPair([], t, Current);
    Append1(t);
    assert g == AddEdge(AddEdge(map[], base, Edge(quote, p)), quote, Edge(base, 1.0 / p));
    assert Out(g, base) == [Edge(quote, p)];
    assert Out(g, quote) == [Edge(base, 1.0 / p)];
    ResolveDirectFirst(g, base, quote, 0);
    ResolveDirectFirst(g, quote, base, 0);
  }

  // ---------------------------------------------------------------------
  // Building concrete graphs one ticker at a time

  // Append1, Append2 and Append3 only hand the verifier the literal form of
  // a short concatenation, so that concrete edge lists match.
  lemma Append1<T>(a: T)
    ensures [] + [a] == [a]
  {
  }

  lemma Append2<T>(a: T, b: T)
    ensures [a] + [b] == [a, b]
  {
  }

  lemma Append3<T>(a: T, b: T, c: T)
    ensures [a, b] + [c] == [a, b, c]
  {
  }

  /** A ticker that contributes edges at price `p`, and whose symbols are already upper case. */
  predicate Listed(t: Ticker, prices: Prices, p: real) {
    EdgePrice(t, prices) == Some(p) && Upper(t.base) == t.base && Upper(t.quote) == t.quote
  }

  /** The graph of no ticker has no node. */
  lemma NoTickerGraph(prices: Prices)
    ensures GraphOf(Arcs([], prices)) == map[]
  {
  }

  /**
   * A listed ticker appended to the list makes its two symbols nodes. A
   * node's list gains the forward edge when the node is the ticker's base,
   * then the reverse edge when it is the ticker's quote, so a pair X/X adds
   * both edges to X's list; every other node's list stays as it was.
   */
  lemma NextTickerOut(ts: seq<Ticker>, t: Ticker, prices: Prices, p: real, n: string)
    requires Listed(t, prices, p)
    ensures GraphOf(Arcs(ts + [t], prices)).Keys == GraphOf(Arcs(ts, prices)).Keys + {t.base, t.quote}
    ensures Out(GraphOf(Arcs(ts + [t], prices)), n)
            == Out(GraphOf(Arcs(ts, prices)), n)
               + (if n == t.base then [Edge(t.quote, p)] else [])
               + (if n == t.quote then [Edge(t.base, 1.0 / p)] else [])
  {
    var g0 := GraphOf(Arcs(ts, prices));
    var g1 := AddEdge(g0, t.base, Edge(t.quote, p));
    var g2 := AddEdge(g1, t.quote, Edge(t.base, 1.0 / p));
    TickerAppendsPair(ts, t, prices);
    assert GraphOf(Arcs(ts + [t], prices)) == g2;
    var forward: seq<Edge> := if n == t.base then [Edge(t.quote, p)] else [];
    var reverse: seq<Edge> := if n == t.quote then [Edge(t.base, 1.0 / p)] else [];
    assert Out(g1, n) == Out(g0, n) + forward by {
      if n != t.base {
        assert Out(g0, n) + forward == Out(g0, n);
      }
    }
    assert Out(g2, n) == Out(g1, n) + reverse by {
      if n != t.quote {
        assert Out(g1, n) + reverse == Out(g1, n);
      }
    }
  }

  const SelfPair := Ticker("X", "X", 2.0, 0.0)

  /** A pair whose base and quote coincide gives its symbol a loop edge at the price and one at its reciprocal. */
  lemma SelfPairExample()
    ensures Out(CurrentGraph([SelfPair]), "X") == [Edge("X", 2.0), Edge("X", 0.5)]
    ensures Resolve(CurrentGraph([SelfPair]), "X", "X") == Some(1.0)
  {
    UpperKeepsNormalised("X");
    assert Listed(SelfPair, Current, 2.0);
    NoTickerGraph(Current);
    Append1(SelfPair);
    NextTickerOut([], SelfPair, Current, 2.0, "X");
    Append2(Edge("X", 2.0), Edge("X", 1.0 / 2.0));
  }

  const BtcUsd := Ticker("BTC", "USD", 50000.0, 0.0)
  const UsdClp := Ticker("USD", "CLP", 900.0, 0.0)

  lemma BtcUsdClpListed()
    ensures Listed(BtcUsd, Current, 50000.0) && Listed(UsdClp, Current, 900.0)
  {
    UpperKeepsNormalised("BTC");
    UpperKeepsNormalised("USD");
    UpperKeepsNormalised("CLP");
  }

  lemma BtcUsdGraph()
    ensures Out(CurrentGraph([BtcUsd]), "BTC") == [Edge("USD", 50000.0)]
    ensures Out(CurrentGraph([BtcUsd]), "USD") == [Edge("BTC", 1.0 / 50000.0)]
    ensures Out(CurrentGraph([BtcUsd]), "CLP") == []
  {
    BtcUsdClpListed();
    NoTickerGraph(Current);
    Append1(BtcUsd);
    NextTickerOut([], BtcUsd, Current, 50000.0, "BTC");
    NextTickerOut([], BtcUsd, Current, 50000.0, "USD");
    NextTickerOut([], BtcUsd, Current, 50000.0, "CLP");
  }

  lemma TwoHopGraph()
    ensures Out(CurrentGraph([BtcUsd, UsdClp]), "BTC") == [Edge("USD", 50000.0)]
    ensures Out(CurrentGraph([BtcUsd, UsdClp]), "USD") == [Edge("BTC", 1.0 / 50000.0), Edge("CLP", 900.0)]
  {
    BtcUsdClpListed();
    BtcUsdGraph();
    var g1, g2 := CurrentGraph([BtcUsd]), CurrentGraph([BtcUsd, UsdClp]);
    Append2(BtcUsd, UsdClp);
    assert g2 == GraphOf(Arcs([BtcUsd] + [UsdClp], Current));
    NextTickerOut([BtcUsd], UsdClp, Current, 900.0, "BTC");
    NextTickerOut([BtcUsd], UsdClp, Current, 900.0, "USD");
    assert Out(g2, "USD") == Out(g1, "USD") + [Edge("CLP", 900.0)];
    Append2(Edge("BTC", 1.0 / 50000.0), Edge("CLP", 900.0));
  }

  /** BTC/USD at 50000 and USD/CLP at 900: BTC converts to CLP through USD at 45,000,000. */
  lemma TwoHopExample()
    ensures Resolve(CurrentGraph([BtcUsd, UsdClp]), "BTC", "CLP") == Some(45000000.0)
  {
    var g := CurrentGraph([BtcUsd, UsdClp]);
    TwoHopGraph();
    assert !Hop(g, "BTC", "CLP");
    ResolveTwoHopFirst(g, "BTC", "CLP", 0, 1);
  }

  /** With only BTC/USD listed, BTC has no rate in EUR. */
  lemma MissingDataExample()
    ensures Resolve(CurrentGraph([BtcUsd]), "BTC", "EUR") == None
  {
    var g := CurrentGraph([BtcUsd]);
    BtcUsdGraph();
    assert !Hop(g, "BTC", "EUR");
    forall x | Hop(g, "BTC", x)
      ensures !Hop(g, x, "EUR")
    {
      assert x == "USD";
    }
    ResolveNoneIff(g, "BTC", "EUR");
  }

  const Ab := Ticker("A", "B", 2.0, 0.0)
  const Bc := Ticker("B", "C", 3.0, 0.0)
  const Cd := Ticker("C", "D", 5.0, 0.0)

  lemma ChainListed()
    ensures Listed(Ab, Current, 2.0) && Listed(Bc, Current, 3.0) && Listed(Cd, Current, 5.0)
  {
    UpperKeepsNormalised("A");
    UpperKeepsNormalised("B");
    UpperKeepsNormalised("C");
    UpperKeepsNormalised("D");
  }

  lemma ChainFirstGraph()
    ensures Out(CurrentGraph([Ab]), "A") == [Edge("B", 2.0)]
    ensures Out(CurrentGraph([Ab]), "B") == [Edge("A", 1.0 / 2.0)]
  {
    ChainListed();
    NoTickerGraph(Current);
    Append1(Ab);
    NextTickerOut([], Ab, Current, 2.0, "A");
    NextTickerOut([], Ab, Current, 2.0, "B");
  }

  lemma ChainPrefixGraph()
    ensures Out(CurrentGraph([Ab, Bc]), "A") == [Edge("B", 2.0)]
    ensures Out(CurrentGraph([Ab, Bc]), "B") == [Edge("A", 1.0 / 2.0), Edge("C", 3.0)]
  {
    ChainListed();
    ChainFirstGraph();
    var g1, g2 := CurrentGraph([Ab]), CurrentGraph([Ab, Bc]);
    Append2(Ab, Bc);
    assert g2 == GraphOf(Arcs([Ab] + [Bc], Current));
    NextTickerOut([Ab], Bc, Current, 3.0, "A");
    NextTickerOut([Ab], Bc, Current, 3.0, "B");
    assert Out(g2, "B") == Out(g1, "B") + [Edge("C", 3.0)];
    Append2(Edge("A", 1.0 / 2.0), Edge("C", 3.0));
  }

  lemma ChainGraph()
    ensures Out(CurrentGraph([Ab, Bc, Cd]), "A") == [Edge("B", 2.0)]
    ensures Out(CurrentGraph([Ab, Bc, Cd]), "B") == [Edge("A", 1.0 / 2.0), Edge("C", 3.0)]
  {
    ChainListed();
    ChainPrefixGraph();
    Append3(Ab, Bc, Cd);
    NextTickerOut([Ab, Bc], Cd, Current, 5.0, "A");
    NextTickerOut([Ab, Bc], Cd, Current, 5.0, "B");
  }

  /** On the chain A/B, B/C, C/D the resolver reaches C from A but not D, which is three hops away. */
  lemma DepthBoundExample()
    ensures Resolve(CurrentGraph([Ab, Bc, Cd]), "A", "C") == Some(6.0)
    ensures Resolve(CurrentGraph([Ab, Bc, Cd]), "A", "D") == None
  {
    var g := CurrentGraph([Ab, Bc, Cd]);
    ChainGraph();
    assert !Hop(g, "A", "C");
    ResolveTwoHopFirst(g, "A", "C", 0, 1);
    assert !Hop(g, "A", "D");
    forall x | Hop(g, "A", x)
      ensures !Hop(g, x, "D")
    {
      assert x == "B";
    }
    ResolveNoneIff(g, "A", "D");
  }

  const BtcDayAgo := Ticker("BTC", "USD", 110.0, 0.10)
  const EthWipedOut := Ticker("ETH", "USD", 5.0, -1.0)

  lemma DayAgoPrices()
    ensures Listed(BtcDayAgo, DayAgo, 100.0)
    ensures EdgePrice(EthWipedOut, DayAgo) == None
  {
    UpperKeepsNormalised("BTC");
    UpperKeepsNormalised("USD");
    Price24hAgoExample();
  }

  lemma DayAgoFirstGraph()
    ensures DayAgoGraph([BtcDayAgo]).Keys == {"BTC", "USD"}
    ensures Out(DayAgoGraph([BtcDayAgo]), "BTC") == [Edge("USD", 100.0)]
  {
    DayAgoPrices();
    NoTickerGraph(DayAgo);
    Append1(BtcDayAgo);
    NextTickerOut([], BtcDayAgo, DayAgo, 100.0, "BTC");
  }

  lemma DayAgoGraphOut()
    ensures DayAgoGraph([BtcDayAgo, EthWipedOut]).Keys == {"BTC", "USD"}
    ensures Out(DayAgoGraph([BtcDayAgo, EthWipedOut]), "BTC") == [Edge("USD", 100.0)]
  {
    DayAgoPrices();
    DayAgoFirstGraph();
    Append2(BtcDayAgo, EthWipedOut);
    TickerAppendsPair([BtcDayAgo], EthWipedOut, DayAgo);
  }

  /** A 24h graph: 110 after +10% was 100, and a -100% change contributes nothing. */
  lemma DayAgoExample()
    ensures Resolve(DayAgoGraph([BtcDayAgo, EthWipedOut]), "BTC", "USD") == Some(100.0)
    ensures DayAgoGraph([BtcDayAgo, EthWipedOut]).Keys == {"BTC", "USD"}
  {
    DayAgoGraphOut();
    ResolveDirectFirst(DayAgoGraph([BtcDayAgo, EthWipedOut]), "BTC", "USD", 0);
  }
}
