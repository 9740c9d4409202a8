# Rate resolution for a multi-currency portfolio

This project models the rate-resolution engine of a portfolio valuation
service (`app/pricing.py`). Market tickers `BASE/QUOTE` at a last price `p`
are turned into a directed conversion graph. Each usable ticker adds an edge
`BASE -> QUOTE` with rate `p`, followed by `QUOTE -> BASE` with rate `1/p`.
A breadth-first search bounded to two hops then finds the multiplier that
converts one currency into another. A second builder does the same with the
price of 24 hours ago, `last / (1 + variation)`.

The model has four modules, one file each:

- `Symbols` (`symbols.dfy`): the upper-casing applied to every currency symbol.
- `Pricing` (`pricing.dfy`):
  - the `Ticker`, `Edge` and `Graph` types and `_price_24h_ago`;
  - the two graph builders, as methods with `for` loops that append to a local map.
  - Each builder is proved equal to a declarative description, `GraphOf(Arcs(...))`:
    - `Arcs` lists, in ticker order, the edges each usable ticker contributes.
    - `GraphOf` maps every node to the edges leaving it, in that order.
  - The properties of the graph are lemmas about that description.
- `Resolver` (`resolver.dfy`):
  - the search, as a method with the source's `while` loop, FIFO queue and visited set keyed by `(node, depth)`;
  - `Resolve`, an independent statement of what the search returns:
    - 1 for equal symbols;
    - otherwise the rate of the first direct edge;
    - otherwise the two-hop rate through the first neighbour, in edge order, that has an edge to the target;
    - otherwise nothing.
  - The method is proved to return exactly `Resolve`, and `Resolve` is characterised by lemmas.
  - A ghost history of the `(node, depth)` keys the search enqueues shows that each key enters the queue at most once. The history holds only keys within two hops of the start, and it holds all of them when nothing is found.
- `Scenarios` (`scenarios.dfy`): concrete graphs built from concrete tickers, with the rates the resolver returns on them.

Rates are `real`. The source uses Python `Decimal`, whose division rounds to
the context precision (28 significant digits by default). So "the reverse
rate times the forward rate is 1" and "the 24h price is exactly
`last / (1 + variation)`" hold in this model, but hold only up to rounding in
the source. The docstring of `build_graph` (app/pricing.py:22-25) gives the
reverse rate as `1/p`; the code computes `Decimal("1") / p` in the decimal
context (app/pricing.py:41), and this model follows the mathematical value.

The graph is a value (`map<string, seq<Edge>>`). The resolver receives it as
an in-parameter, so it cannot change it.

## Model

| member | source | states |
|---|---|---|
| Symbols.Upper | app/pricing.py:36-37 | the normalised symbol has the same length and no lower-case letter, every ASCII lower-case letter becomes its capital, and every other character stays where it was |
| Symbols.UpperCaseBlind | app/pricing.py:89-90 | two symbols that differ only in the case of their ASCII letters normalise to the same string, so the lookups by symbol are case-insensitive |
| Symbols.UpperIdempotent | app/pricing.py:89-90 | normalising an already normalised symbol changes nothing |
| Symbols.UpperKeepsNormalised | app/pricing.py:36-37 | a symbol without lower-case letters is its own normal form |
| Pricing.AddEdge | app/pricing.py:29-30 | `setdefault(...).append(...)`: the node becomes a key, its edge list gains the new edge at the end, and every other node's list is unchanged |
| Pricing.Price24hAgo | app/pricing.py:46-51 | None exactly when `1 + variation <= 0`; otherwise a price that, multiplied by `1 + variation`, gives back the last price |
| Pricing.Price24hAgoExample | app/pricing.py:46-51 | 110 after +10% was 100; a change of -100% or -150% yields None |
| Pricing.Price24hAgoSign | app/pricing.py:66-68 | when the denominator is positive, the rebuilt price is positive exactly when the last price is, so the `pv24 <= 0` skip is the `last_price <= 0` skip |
| Pricing.EdgePrice | app/pricing.py:33-69 | the price a ticker contributes. Current prices: present exactly when `last_price > 0`, and then equal to it. 24h prices: present exactly when `last_price > 0` and `1 + variation > 0`, and then a price that, multiplied by `1 + variation`, gives `last_price`. A present price is always positive |
| Pricing.TickerArcs | app/pricing.py:36-41 | a skipped ticker contributes no edge. A usable one contributes exactly two, in order: upper(base) -> upper(quote) at rate p, then upper(quote) -> upper(base) at rate 1/p. The two rates multiply to 1 |
| Pricing.BuildGraph | app/pricing.py:20-43 | the loop's map equals the declarative graph of the tickers' arcs at current prices |
| Pricing.BuildGraph24h | app/pricing.py:54-77 | the loop's map equals the declarative graph of the tickers' arcs at 24h-ago prices |
| Pricing.TickerAppendsPair | app/pricing.py:32-41 | one more ticker leaves the graph unchanged when it is skipped. Otherwise the graph becomes two AddEdge steps: forward edge first, then reverse edge |
| Pricing.GraphOfSnoc | app/pricing.py:29-30 | appending one arc to the arc list is one AddEdge on the graph |
| Pricing.OutIsLeaving | app/pricing.py:29-30 | a node's edge list is the arc-order sequence of the edges leaving it, and a node is a key exactly when some arc leaves it |
| Pricing.LeavingKeepsAll | app/pricing.py:29-30 | no deduplication: each edge occurs in a node's list as many times as the arc occurs, so parallel edges are all kept |
| Pricing.ArcsCount | app/pricing.py:32-41 | the arc list has exactly twice as many arcs as there are usable tickers |
| Pricing.ArcsUpper | app/pricing.py:36-37 | every endpoint of every arc is already upper case |
| Pricing.EdgeCountAddEdge | app/pricing.py:29-30 | one AddEdge adds exactly one edge to the graph's total |
| Pricing.EdgeCountGraphOf | app/pricing.py:27-43 | the graph's total edge count equals the number of arcs |
| Pricing.EdgeCountTwicePerTicker | app/pricing.py:33-41 | the total edge count is twice the number of tickers not skipped |
| Resolver.FirstTo | app/pricing.py:103-109 | None exactly when no edge of the list reaches the target; otherwise an edge that reaches it and has no earlier edge that does |
| Resolver.Reach | app/pricing.py:103-109 | None exactly when the node has no edge to the target |
| Resolver.ReachFirstEdge | app/pricing.py:103-109 | when a node's first edge to the target is its edge j, the rate found from it is the accumulated rate times edge j's rate |
| Resolver.ExpandNode | app/pricing.py:103-114 | the inner `for` over one dequeued node. It returns the accumulated rate at the first edge to the target. Otherwise it enqueues, in edge order, every target whose `(node, depth + 1)` key was unvisited, and it marks exactly the targets' keys visited |
| Resolver.FindRateMax2Hops | app/pricing.py:80-116 | returns 1 when the upper-cased symbols are equal, and always returns exactly `Resolve` of the upper-cased symbols. The ghost history of enqueued `(node, depth)` keys starts with the start key, has no repeat, and holds only keys one or two hops from the start at depths 1 and 2; when nothing is found it holds every such key |
| Resolver.FreshKeys | app/pricing.py:111-114 | the entries enqueued for one node all sit at the next depth. Their keys are distinct and previously unvisited, and together with the visited set they are exactly the edge targets' keys |
| Resolver.RecordKeys | app/pricing.py:111-114 | after one expansion, the visited set is exactly the set of enqueued keys and the key history has no repeat |
| Resolver.AdvanceStep | app/pricing.py:96-114 | expanding the head entry at depth 0 or 1 without reaching the target keeps the loop invariant (queue, visited set, key history, expanded depth-1 nodes) and shrinks the termination measure |
| Resolver.ReachKeysHop | app/pricing.py:100-114 | the finite set of keys the search can queue is exactly the set of keys `(x, d)` with x reachable from the start in d <= 2 hops |
| Resolver.SearchComplete | app/pricing.py:96-116 | when the queue runs dry, every key one or two hops from the start was enqueued, so every depth-1 node was expanded |
| Resolver.FinishNone | app/pricing.py:96-116 | when the queue runs dry the resolved rate is None and the key history holds exactly the keys within two hops |
| Resolver.ExpandedDepthOne | app/pricing.py:98-101 | after a depth-1 entry is expanded without reaching the target, the queue still leads to the same two-hop rate, holds only depths 1 and 2, and has one depth-1 entry fewer, so the loop terminates |
| Resolver.ViaNoneIff | app/pricing.py:98-116 | the two-hop search finds nothing exactly when no listed neighbour has an edge to the target |
| Resolver.ViaFirst | app/pricing.py:98-114 | the two-hop rate comes from the first neighbour, in edge order, that has an edge to the target |
| Resolver.ViaIsPathRate | app/pricing.py:105 | a two-hop rate is the product of the rates of an edge src -> X and X's edge to the target |
| Resolver.ResolveNoneIff | app/pricing.py:98-116 | the result is None exactly when the symbols differ and no path of one or two hops joins them |
| Resolver.ResolveDirectFirst | app/pricing.py:103-109 | a direct edge beats any two-hop path: the result is the rate of the first edge src -> dst in insertion order |
| Resolver.ResolveViaNeighbour | app/pricing.py:98-114 | without a direct edge, the result is what the first neighbour with an edge to the target reaches, starting from the rate of the edge to that neighbour |
| Resolver.ResolveTwoHopFirst | app/pricing.py:95-114 | without a direct edge, the result is rate(src -> X) * rate(X -> dst). X is the first neighbour with an edge to dst, and X -> dst is X's first such edge |
| Resolver.ResolveIsPathRate | app/pricing.py:98-116 | any rate returned for two different symbols is the rate of one edge or the product of the rates of two consecutive edges |
| Resolver.CaseInsensitiveExample | app/pricing.py:89-92 | "btc"/"USD" and "BTC"/"usd" resolve to the same rate on every graph |
| Scenarios.SingleTicker | app/pricing.py:32-41 | with one usable ticker whose upper-cased base and quote differ, BASE -> QUOTE resolves to p and QUOTE -> BASE resolves to 1/p; a self-pair resolves to 1 instead (see SelfPairExample) |
| Scenarios.NextTickerOut | app/pricing.py:32-41 | appending a usable upper-case ticker makes both its symbols nodes. A node's edge list gains the forward edge if the node is the base, then the reverse edge if it is the quote, so a pair X/X adds both to X; other lists are unchanged |
| Scenarios.SelfPairExample | app/pricing.py:32-41 | the pair X/X at 2 gives X the edge list [X at 2, X at 0.5], and X -> X resolves to 1 |
| Scenarios.TwoHopGraph | app/pricing.py:32-41 | in the BTC/USD, USD/CLP graph, BTC has one edge (to USD) and USD has two (back to BTC, then to CLP) |
| Scenarios.TwoHopExample | app/pricing.py:98-114 | BTC/USD at 50000 and USD/CLP at 900 resolve BTC -> CLP to 45,000,000 through USD |
| Scenarios.MissingDataExample | app/pricing.py:98-116 | with only BTC/USD listed, BTC -> EUR is None |
| Scenarios.ChainPrefixGraph | app/pricing.py:32-41 | the edge lists of A and B in the A/B, B/C graph |
| Scenarios.ChainGraph | app/pricing.py:32-41 | adding C/D leaves the edge lists of A and B unchanged |
| Scenarios.DepthBoundExample | app/pricing.py:100-101 | on the chain A/B, B/C, C/D, A -> C (two hops) resolves to 6, while A -> D (three hops) is None |
| Scenarios.DayAgoExample | app/pricing.py:66-75 | in the 24h graph, BTC/USD at 110 after +10% gives BTC -> USD = 100, and a ticker with a -100% change adds no node |

## Left out

- Python `Decimal` context precision and rounding: rates are exact reals, so the reciprocal and 24h-price identities hold exactly here and only up to rounding in the source.
- Symbols.Upper: only ASCII letters are upper-cased. Python's `str.upper` also maps other Unicode letters, and can change a string's length, for example "ß" becomes "SS".
- The ticker dictionary's pair-name keys: the builders read only the values, in insertion order, so tickers are a sequence.
- `Ticker` comes from a client module that is not part of this model. Only the four fields the builders read are modelled.
- NaN and infinite `Decimal` values are not representable in the model.
- `app/api.py` (HTTP routes, the upstream fetch, error-to-status mapping, per-holding sums) is not part of this model.
- Resolver.ExpandNode: the search's inner `for` loop is a separate method, so the outer loop calls it rather than running it inline. Its early `return` is the method's `found` result.
- The `deque` is a sequence; `popleft` takes its head and `append` adds at its end.
