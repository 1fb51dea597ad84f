/**
 * hnsw/search.go, `searchLayer`: a best-first walk of one level of the
 * graph from an entry point, keeping at most `ef` results. The level is
 * given as each node's vector and its connection list at that level;
 * distances come from the index's distance function, a parameter here,
 * and are integers. The node locks around the connection copy are left
 * out: the copy is the list itself.
 *
 * The candidate frontier's heap order is a parameter. As written it is a
 * `MaxHeap`, so the farthest candidate is expanded first; `MinFirst` is the
 * nearest-first frontier the walk is meant to have.
 */
module Search {
  import opened Wrappers
  import opened Heaps

  datatype SearchResult = SearchResult(id: int, distance: int)

  /** One level of the graph: node `u`'s vector and its connections there. */
  datatype Layer = Layer(vectors: seq<seq<int>>, connections: seq<seq<int>>)

  /** What `searchLayer` reads: the level, the distance function, the query and `ef`. */
  datatype Query = Query(layer: Layer, dist: (seq<int>, seq<int>) -> int, query: seq<int>, ef: int)

  /** Every node has a connection list, and every connection names a node. */
  predicate ValidLayer(g: Layer)
  {
    && |g.connections| == |g.vectors|
    && forall u, k :: 0 <= u < |g.connections| && 0 <= k < |g.connections[u]| ==>
         0 <= g.connections[u][k] < |g.vectors|
  }

  function Nodes(q: Query): nat
  {
    |q.layer.vectors|
  }

  /** `distFunc(query, nodes[u].Vector())`. */
  function Dist(q: Query, u: int): int
    requires 0 <= u < Nodes(q)
  {
    q.dist(q.query, q.layer.vectors[u])
  }

  function MaxOne(ef: int): int
  {
    if ef > 1 then ef else 1
  }

  /** The visited set and the two heaps. */
  datatype State = State(visited: set<int>, candidates: seq<Item>, results: seq<Item>)

  /** What the walk needs to index nodes: visited ids are nodes, queued ids
      are visited, and there is always a result. */
  predicate Bounded(q: Query, st: State)
  {
    && (forall v :: v in st.visited ==> 0 <= v < Nodes(q))
    && (forall e :: e in Bag(st.candidates) ==> e.value in st.visited)
    && (forall e :: e in Bag(st.results) ==> e.value in st.visited)
    && |st.results| > 0
  }

  /** The nodes not yet visited. */
  function Unvisited(q: Query, visited: set<int>): set<int>
  {
    set u | 0 <= u < Nodes(q) && u !in visited
  }

  /** Visiting new nodes among `ns` leaves fewer nodes unvisited. */
  lemma Shrinks(q: Query, a: set<int>, b: set<int>, ns: seq<int>)
    requires a <= b && forall v :: v in b ==> 0 <= v < Nodes(q)
    requires b != a ==> exists k :: 0 <= k < |ns| && ns[k] in b && ns[k] !in a
    ensures b != a ==> Unvisited(q, b) < Unvisited(q, a)
  {
    if b != a {
      var k :| 0 <= k < |ns| && ns[k] in b && ns[k] !in a;
      assert ns[k] in Unvisited(q, a);
    }
  }

  lemma PushBag(o: Order, h: seq<Item>, x: Item)
    ensures forall e :: e in Bag(Push(o, h, x)) ==> e in Bag(h) || e == Key(x)
  {
  }

  lemma PopBag(o: Order, h: seq<Item>)
    requires |h| > 0
    ensures forall e :: e in Bag(Pop(o, h).heap) ==> e in Bag(h)
  {
    var p := Pop(o, h);
    assert Bag(p.heap) + multiset{Key(p.item)} == Bag(h);
  }

  /** A visited node joins both heaps. */
  function Admit(o: Order, q: Query, st: State, x: Item): (r: State)
    requires Bounded(q, st) && x.value in st.visited
    ensures Bounded(q, r) && r.visited == st.visited
    ensures |r.results| == |st.results| + 1
  {
    PushBag(o, st.candidates, x);
    PushBag(MaxFirst, st.results, x);
    State(st.visited, Push(o, st.candidates, x), Push(MaxFirst, st.results, x))
  }

  /** One neighbour of the node being expanded (the body of the inner loop). */
  function Visit(o: Order, q: Query, st: State, n: int): (r: State)
    requires ValidLayer(q.layer) && Bounded(q, st) && 0 <= n < Nodes(q)
    ensures Bounded(q, r)
    ensures r.visited == st.visited + {n}
    ensures n in st.visited ==> r == st
  {
    if n in st.visited then st
    else
      var st1 := st.(visited := st.visited + {n});
      var x := Item(n, Dist(q, n), 0);
      if |st.results| < q.ef then Admit(o, q, st1, x)
      else if x.priority < Peek(st.results).value.priority then
        var a := Admit(o, q, st1, x);
        if |a.results| > q.ef then
          PopBag(MaxFirst, a.results);
          a.(results := Pop(MaxFirst, a.results).heap)
        else a
      else st1
  }

  /** The neighbours from the `i`-th on, in order. */
  function VisitAll(o: Order, q: Query, st: State, ns: seq<int>, i: nat): (r: State)
    requires ValidLayer(q.layer) && Bounded(q, st) && i <= |ns|
    requires forall k :: 0 <= k < |ns| ==> 0 <= ns[k] < Nodes(q)
    ensures Bounded(q, r)
    ensures st.visited <= r.visited
    ensures r.visited == st.visited ==> r == st
    ensures r.visited != st.visited ==> exists k :: i <= k < |ns| && ns[k] in r.visited && ns[k] !in st.visited
    decreases |ns| - i
  {
    if i == |ns| then st
    else VisitAll(o, q, Visit(o, q, st, ns[i]), ns, i + 1)
  }

  /** Where one round of the outer loop leaves the walk: stopped, or
      ready for the next round. */
  datatype Round = Stop(state: State) | Continue(state: State)

  /** One round of the outer loop: pop a candidate; stop when it is farther
      than the farthest result, otherwise visit its neighbours. */
  function Next(o: Order, q: Query, st: State): (r: Round)
    requires ValidLayer(q.layer) && Bounded(q, st) && |st.candidates| > 0
    ensures Bounded(q, r.state) && st.visited <= r.state.visited
    ensures r.Continue? ==>
      || Unvisited(q, r.state.visited) < Unvisited(q, st.visited)
      || (r.state.visited == st.visited && |r.state.candidates| < |st.candidates|)
  {
    var p := Pop(o, st.candidates);
    var current := p.item;
    PopBag(o, st.candidates);
    var st1 := st.(candidates := p.heap);
    assert Key(current) in Bag(st.candidates);
    if |st.results| > 0 && current.priority > Peek(st.results).value.priority then Stop(st1)
    else
      var ns := q.layer.connections[current.value];
      var r := VisitAll(o, q, st1, ns, 0);
      Shrinks(q, st.visited, r.visited, ns);
      Continue(r)
  }

  /** The outer loop, `for candidates.Len() > 0`. */
  function Expand(o: Order, q: Query, st: State): (r: State)
    requires ValidLayer(q.layer) && Bounded(q, st)
    decreases Unvisited(q, st.visited), |st.candidates|
  {
    if |st.candidates| == 0 then st
    else
      match Next(o, q, st)
      case Stop(s) => s
      case Continue(s) => Expand(o, q, s)
  }

  /** The entry point, queued and visited. */
  function Start(o: Order, q: Query, ep: int): (st: State)
    requires 0 <= ep < Nodes(q)
    ensures Bounded(q, st)
  {
    var x := Item(ep, Dist(q, ep), 0);
    var candidates := Push(o, [], x);
    var results := Push(MaxFirst, [], x);
    assert Bag(results) == multiset{Key(x)};
    assert Bag(candidates) == multiset{Key(x)};
    State({ep}, candidates, results)
  }

  /** The final loop: results are popped into the output from its last slot
      to its first. */
  function Drain(h: seq<Item>): (out: seq<SearchResult>)
    ensures |out| == |h|
    decreases |h|
  {
    if |h| == 0 then []
    else
      var p := Pop(MaxFirst, h);
      Drain(p.heap) + [SearchResult(p.item.value, p.item.priority)]
  }

  /** `searchLayer` with the candidate frontier ordered by `o`. */
  function SearchLayerWith(o: Order, q: Query, ep: int): seq<SearchResult>
    requires ValidLayer(q.layer) && 0 <= ep < Nodes(q)
  {
    Drain(Expand(o, q, Start(o, q, ep)).results)
  }

  /** `searchLayer` as written: the frontier is a `MaxHeap`. */
  function SearchLayerAsWritten(q: Query, ep: int): seq<SearchResult>
    requires ValidLayer(q.layer) && 0 <= ep < Nodes(q)
  {
    SearchLayerWith(MaxFirst, q, ep)
  }

  /** `searchLayer` with the nearest-first frontier its comments describe. */
  function SearchLayer(q: Query, ep: int): seq<SearchResult>
    requires ValidLayer(q.layer) && 0 <= ep < Nodes(q)
  {
    SearchLayerWith(MinFirst, q, ep)
  }

  // ---------------------------------------------------------------------
  // Reachability

  /** `p` walks the level's connections. */
  predicate IsPath(g: Layer, p: seq<int>)
  {
    forall i :: 0 <= i < |p| - 1 ==> 0 <= p[i] < |g.connections| && p[i + 1] in g.connections[p[i]]
  }

  ghost predicate Reachable(g: Layer, from: int, v: int)
  {
    exists p :: IsPath(g, p) && |p| > 0 && p[0] == from && p[|p| - 1] == v
  }

  lemma ReachStart(g: Layer, from: int)
    ensures Reachable(g, from, from)
  {
    assert IsPath(g, [from]);
  }

  lemma ReachStep(g: Layer, from: int, u: int, v: int)
    requires Reachable(g, from, u) && 0 <= u < |g.connections| && v in g.connections[u]
    ensures Reachable(g, from, v)
  {
    var p :| IsPath(g, p) && |p| > 0 && p[0] == from && p[|p| - 1] == u;
    var p' := p + [v];
    assert IsPath(g, p');
  }

  // ---------------------------------------------------------------------
  // What the walk keeps true

  /** Every entry of `h` is a node with its distance to the query. */
  predicate Exact(q: Query, h: seq<Item>)
  {
    forall e :: e in Bag(h) ==> 0 <= e.value < Nodes(q) && e.priority == Dist(q, e.value)
  }

  /** No entry of `h` is there twice. */
  predicate Once(h: seq<Item>)
  {
    forall e :: e in Bag(h) ==> Bag(h)[e] == 1
  }

  /** The candidate frontier: a heap in order `o`, slot-indexed, exact. */
  predicate CandidatesOk(o: Order, q: Query, c: seq<Item>)
  {
    IsHeap(o, c) && Indexed(c) && Exact(q, c)
  }

  /** The results: a max-heap, slot-indexed, exact, each entry once, at
      most `max(ef, 1)` of them. */
  predicate ResultsOk(q: Query, r: seq<Item>)
  {
    IsHeap(MaxFirst, r) && Indexed(r) && Exact(q, r) && Once(r) && |r| <= MaxOne(q.ef)
  }

  ghost predicate ReachOk(q: Query, ep: int, visited: set<int>)
  {
    forall v :: v in visited ==> Reachable(q.layer, ep, v)
  }

  ghost predicate Inv(o: Order, q: Query, ep: int, st: State)
  {
    Bounded(q, st) && CandidatesOk(o, q, st.candidates) && ResultsOk(q, st.results) && ReachOk(q, ep, st.visited)
  }

  lemma StartInv(o: Order, q: Query, ep: int)
    requires 0 <= ep < Nodes(q)
    ensures Inv(o, q, ep, Start(o, q, ep))
  {
    var x := Item(ep, Dist(q, ep), 0);
    PushKeepsHeap(o, [], x);
    PushKeepsHeap(MaxFirst, [], x);
    ReachStart(q.layer, ep);
    assert Bag(Start(o, q, ep).results) == multiset{Key(x)};
  }

  /** A pushed entry keeps `Exact`, and `Once` when it is new. */
  lemma PushExact(o: Order, q: Query, h: seq<Item>, x: Item)
    requires Exact(q, h) && 0 <= x.value < Nodes(q) && x.priority == Dist(q, x.value)
    ensures Exact(q, Push(o, h, x))
    ensures Once(h) && Key(x) !in Bag(h) ==> Once(Push(o, h, x))
  {
  }

  lemma PopExact(o: Order, q: Query, h: seq<Item>)
    requires |h| > 0 && Exact(q, h)
    ensures Exact(q, Pop(o, h).heap)
    ensures Once(h) ==> Once(Pop(o, h).heap)
  {
    var p := Pop(o, h);
    assert Bag(p.heap) + multiset{Key(p.item)} == Bag(h);
    forall e | e in Bag(p.heap)
      ensures e in Bag(h) && Bag(p.heap)[e] <= Bag(h)[e]
    {
    }
  }

  lemma CandidatesPush(o: Order, q: Query, c: seq<Item>, x: Item)
    requires CandidatesOk(o, q, c) && 0 <= x.value < Nodes(q) && x.priority == Dist(q, x.value)
    ensures CandidatesOk(o, q, Push(o, c, x))
  {
    PushKeepsHeap(o, c, x);
    PushExact(o, q, c, x);
  }

  /** While there is room, a new entry joins the results. */
  lemma ResultsAdd(q: Query, r: seq<Item>, x: Item)
    requires ResultsOk(q, r) && |r| < q.ef
    requires 0 <= x.value < Nodes(q) && x.priority == Dist(q, x.value) && Key(x) !in Bag(r)
    ensures ResultsOk(q, Push(MaxFirst, r, x))
  {
    PushKeepsHeap(MaxFirst, r, x);
    PushExact(MaxFirst, q, r, x);
  }

  /** When full, a nearer new entry joins and the farthest is dropped. */
  lemma ResultsReplace(q: Query, r: seq<Item>, x: Item)
    requires ResultsOk(q, r) && |r| >= q.ef
    requires 0 <= x.value < Nodes(q) && x.priority == Dist(q, x.value) && Key(x) !in Bag(r)
    ensures var r' := Push(MaxFirst, r, x);
      ResultsOk(q, if |r'| > q.ef then Pop(MaxFirst, r').heap else r')
  {
    var r' := Push(MaxFirst, r, x);
    PushKeepsHeap(MaxFirst, r, x);
    PushExact(MaxFirst, q, r, x);
    if |r'| > q.ef {
      PopFirst(MaxFirst, r');
      PopExact(MaxFirst, q, r');
    }
  }

  /** A new neighbour met while the results have room. */
  lemma VisitAdds(o: Order, q: Query, ep: int, st: State, n: int)
    requires ValidLayer(q.layer) && Inv(o, q, ep, st) && 0 <= n < Nodes(q) && Reachable(q.layer, ep, n)
    requires n !in st.visited && |st.results| < q.ef
    ensures Inv(o, q, ep, Visit(o, q, st, n))
  {
    var x := Item(n, Dist(q, n), 0);
    assert ReachOk(q, ep, st.visited + {n});
    assert Key(x) !in Bag(st.results);
    CandidatesPush(o, q, st.candidates, x);
    ResultsAdd(q, st.results, x);
  }

  /** A new neighbour nearer than the farthest of full results. */
  lemma VisitReplaces(o: Order, q: Query, ep: int, st: State, n: int)
    requires ValidLayer(q.layer) && Inv(o, q, ep, st) && 0 <= n < Nodes(q) && Reachable(q.layer, ep, n)
    requires n !in st.visited && |st.results| >= q.ef && Dist(q, n) < Peek(st.results).value.priority
    ensures Inv(o, q, ep, Visit(o, q, st, n))
  {
    var x := Item(n, Dist(q, n), 0);
    assert ReachOk(q, ep, st.visited + {n});
    assert Key(x) !in Bag(st.results);
    CandidatesPush(o, q, st.candidates, x);
    ResultsReplace(q, st.results, x);
  }

  /** Visiting a reachable neighbour keeps the invariant. */
  lemma VisitKeeps(o: Order, q: Query, ep: int, st: State, n: int)
    requires ValidLayer(q.layer) && Inv(o, q, ep, st) && 0 <= n < Nodes(q) && Reachable(q.layer, ep, n)
    ensures Inv(o, q, ep, Visit(o, q, st, n))
  {
    if n !in st.visited {
      if |st.results| < q.ef {
        VisitAdds(o, q, ep, st, n);
      } else if Dist(q, n) < Peek(st.results).value.priority {
        VisitReplaces(o, q, ep, st, n);
      } else {
        assert ReachOk(q, ep, st.visited + {n});
      }
    }
  }

  lemma {:induction false} VisitAllKeeps(o: Order, q: Query, ep: int, st: State, ns: seq<int>, i: nat)
    requires ValidLayer(q.layer) && Inv(o, q, ep, st) && i <= |ns|
    requires forall k :: 0 <= k < |ns| ==> 0 <= ns[k] < Nodes(q) && Reachable(q.layer, ep, ns[k])
    ensures Inv(o, q, ep, VisitAll(o, q, st, ns, i))
    decreases |ns| - i
  {
    if i < |ns| {
      VisitKeeps(o, q, ep, st, ns[i]);
      VisitAllKeeps(o, q, ep, Visit(o, q, st, ns[i]), ns, i + 1);
    }
  }

  /** Nothing left in a heap after a pop comes out before the popped entry. */
  lemma PopNotBefore(o: Order, h: seq<Item>)
    requires IsHeap(o, h) && |h| > 0
    ensures forall e :: e in Bag(Pop(o, h).heap) ==> !Prior(o, e.priority, Pop(o, h).item.priority)
  {
    var p := Pop(o, h);
    PopFirst(o, h);
    PopBag(o, h);
    forall e | e in Bag(p.heap)
      ensures !Prior(o, e.priority, p.item.priority)
    {
      assert e in Keys(h);
      var k :| 0 <= k < |h| && Keys(h)[k] == e;
    }
  }

  /** Popping a candidate keeps the invariant; the candidate is a visited,
      hence reachable, node at its distance, and no candidate left comes
      out strictly before it. */
  lemma PopCandidate(o: Order, q: Query, ep: int, st: State)
    requires Inv(o, q, ep, st) && |st.candidates| > 0
    ensures var p := Pop(o, st.candidates);
      && Inv(o, q, ep, st.(candidates := p.heap))
      && p.item.value in st.visited
      && forall e :: e in Bag(p.heap) ==> !Prior(o, e.priority, p.item.priority)
  {
    var c := st.candidates;
    var p := Pop(o, c);
    PopFirst(o, c);
    PopExact(o, q, c);
    PopNotBefore(o, c);
    assert Key(p.item) in Bag(c);
  }

  lemma NeighboursReachable(q: Query, ep: int, u: int)
    requires ValidLayer(q.layer) && 0 <= u < Nodes(q) && Reachable(q.layer, ep, u)
    ensures forall k :: 0 <= k < |q.layer.connections[u]| ==>
      0 <= q.layer.connections[u][k] < Nodes(q) && Reachable(q.layer, ep, q.layer.connections[u][k])
  {
    forall k | 0 <= k < |q.layer.connections[u]|
      ensures Reachable(q.layer, ep, q.layer.connections[u][k])
    {
      ReachStep(q.layer, ep, u, q.layer.connections[u][k]);
    }
  }

  /** A round keeps the invariant. */
  lemma NextKeeps(o: Order, q: Query, ep: int, st: State)
    requires ValidLayer(q.layer) && Inv(o, q, ep, st) && |st.candidates| > 0
    ensures Inv(o, q, ep, Next(o, q, st).state)
  {
    var p := Pop(o, st.candidates);
    var st1 := st.(candidates := p.heap);
    var r := Next(o, q, st);
    PopCandidate(o, q, ep, st);
    if p.item.priority > Peek(st.results).value.priority {
      assert r.state == st1;
    } else {
      var ns := q.layer.connections[p.item.value];
      NeighboursReachable(q, ep, p.item.value);
      VisitAllKeeps(o, q, ep, st1, ns, 0);
      assert r.state == VisitAll(o, q, st1, ns, 0);
    }
  }

  /** The walk keeps the invariant to the end. */
  lemma {:induction false} ExpandKeeps(o: Order, q: Query, ep: int, st: State)
    requires ValidLayer(q.layer) && Inv(o, q, ep, st)
    ensures Inv(o, q, ep, Expand(o, q, st))
    decreases Unvisited(q, st.visited), |st.candidates|
  {
    if |st.candidates| > 0 {
      NextKeeps(o, q, ep, st);
      var r := Next(o, q, st);
      if r.Continue? {
        ExpandKeeps(o, q, ep, r.state);
      }
    }
  }

  // ---------------------------------------------------------------------
  // The output

  function Entries(out: seq<SearchResult>): (es: seq<Entry>)
    ensures |es| == |out|
  {
    seq(|out|, i requires 0 <= i < |out| => Entry(out[i].id, out[i].distance))
  }

  /** Nearest first. */
  predicate Ascending(out: seq<SearchResult>)
  {
    forall i, j :: 0 <= i < j < |out| ==> out[i].distance <= out[j].distance
  }

  lemma BagBelow(h: seq<Item>, bound: int)
    requires forall k :: 0 <= k < |h| ==> h[k].priority <= bound
    ensures forall e :: e in Bag(h) ==> e.priority <= bound
  {
    forall e | e in Bag(h)
      ensures e.priority <= bound
    {
      assert e in Keys(h);
      var k :| 0 <= k < |h| && Keys(h)[k] == e;
    }
  }

  lemma EntriesSnoc(out: seq<SearchResult>, x: SearchResult)
    ensures Entries(out + [x]) == Entries(out) + [Entry(x.id, x.distance)]
  {
  }

  /** A result no nearer than those before it, placed after them. */
  lemma SnocSpec(rest: seq<SearchResult>, x: SearchResult, b: multiset<Entry>, whole: multiset<Entry>)
    requires multiset(Entries(rest)) == b && Ascending(rest)
    requires forall e :: e in b ==> e.priority <= x.distance
    requires whole == b + multiset{Entry(x.id, x.distance)}
    ensures multiset(Entries(rest + [x])) == whole && Ascending(rest + [x])
  {
    EntriesSnoc(rest, x);
    forall i | 0 <= i < |rest|
      ensures rest[i].distance <= x.distance
    {
      assert Entries(rest)[i] in multiset(Entries(rest));
    }
  }

  /** Draining a max-heap gives its entries, nearest first. */
  lemma {:induction false} DrainSpec(h: seq<Item>)
    requires IsHeap(MaxFirst, h)
    ensures multiset(Entries(Drain(h))) == Bag(h)
    ensures Ascending(Drain(h))
    decreases |h|
  {
    if |h| > 0 {
      var p := Pop(MaxFirst, h);
      var x := SearchResult(p.item.value, p.item.priority);
      PopFirst(MaxFirst, h);
      PopBag(MaxFirst, h);
      DrainSpec(p.heap);
      BagBelow(h, p.item.priority);
      SnocSpec(Drain(p.heap), x, Bag(p.heap), Bag(h));
    }
  }

  lemma CountTwo(es: seq<Entry>, i: nat, j: nat)
    requires i < j < |es|
    ensures es[i] == es[j] ==> multiset(es)[es[i]] >= 2
  {
    assert es == es[..j] + es[j..];
    assert es[i] in multiset(es[..j]) && es[j] in multiset(es[j..]);
  }

  /** The output of a results heap the walk ends with. */
  lemma OutputFrom(q: Query, ep: int, h: seq<Item>, out: seq<SearchResult>)
    requires ResultsOk(q, h) && |h| > 0 && |out| == |h|
    requires forall e :: e in Bag(h) ==> Reachable(q.layer, ep, e.value)
    requires multiset(Entries(out)) == Bag(h)
    ensures forall i, j :: 0 <= i < j < |out| ==> out[i].id != out[j].id
    ensures forall i :: 0 <= i < |out| ==>
      0 <= out[i].id < Nodes(q) && out[i].distance == Dist(q, out[i].id) && Reachable(q.layer, ep, out[i].id)
  {
    var es := Entries(out);
    forall i | 0 <= i < |out|
      ensures 0 <= out[i].id < Nodes(q) && out[i].distance == Dist(q, out[i].id) && Reachable(q.layer, ep, out[i].id)
    {
      assert es[i] == Entry(out[i].id, out[i].distance);
      assert es[i] in multiset(es);
    }
    forall i, j | 0 <= i < j < |out|
      ensures out[i].id != out[j].id
    {
      CountTwo(es, i, j);
      assert es[i] == Entry(out[i].id, out[i].distance) && es[j] == Entry(out[j].id, out[j].distance);
      assert es[i] in multiset(es) && es[j] in multiset(es);
    }
  }

  /** `searchLayer`, whichever the frontier's order: a non-empty output of
      at most `max(ef, 1)` results, nearest first, no node twice, each at its
      distance to the query and reachable from the entry point. */
  lemma SearchLayerSpec(o: Order, q: Query, ep: int)
    requires ValidLayer(q.layer) && 0 <= ep < Nodes(q)
    ensures var out := SearchLayerWith(o, q, ep);
      && 1 <= |out| <= MaxOne(q.ef)
      && Ascending(out)
      && (forall i, j :: 0 <= i < j < |out| ==> out[i].id != out[j].id)
      && forall i :: 0 <= i < |out| ==>
           0 <= out[i].id < Nodes(q) && out[i].distance == Dist(q, out[i].id) && Reachable(q.layer, ep, out[i].id)
  {
    StartInv(o, q, ep);
    var st := Start(o, q, ep);
    ExpandKeeps(o, q, ep, st);
    var fin := Expand(o, q, st);
    DrainSpec(fin.results);
    OutputFrom(q, ep, fin.results, Drain(fin.results));
  }

  // ---------------------------------------------------------------------
  // The stopping rule

  /** Every candidate left is strictly farther than every result. */
  predicate Settled(st: State)
  {
    forall c, r :: c in Bag(st.candidates) && r in Bag(st.results) ==> c.priority > r.priority
  }

  /** With the nearest-first frontier, a round that stops leaves the walk settled. */
  lemma NextSettles(q: Query, ep: int, st: State)
    requires ValidLayer(q.layer) && Inv(MinFirst, q, ep, st) && |st.candidates| > 0
    ensures Next(MinFirst, q, st).Stop? ==> Settled(Next(MinFirst, q, st).state)
  {
    var p := Pop(MinFirst, st.candidates);
    PopCandidate(MinFirst, q, ep, st);
    var f := st.results[0];
    forall k | 0 <= k < |st.results|
      ensures st.results[k].priority <= f.priority
    {
      RootFirst(MaxFirst, st.results, k);
    }
    BagBelow(st.results, f.priority);
  }

  /** With the nearest-first frontier the walk ends settled. */
  lemma {:induction false} ExpandSettles(q: Query, ep: int, st: State)
    requires ValidLayer(q.layer) && Inv(MinFirst, q, ep, st)
    ensures Settled(Expand(MinFirst, q, st))
    decreases Unvisited(q, st.visited), |st.candidates|
  {
    if |st.candidates| > 0 {
      NextKeeps(MinFirst, q, ep, st);
      NextSettles(q, ep, st);
      var r := Next(MinFirst, q, st);
      if r.Continue? {
        ExpandSettles(q, ep, r.state);
      }
    }
  }

  /** When `SearchLayer` stops, no candidate it leaves unexpanded is as near
      as any result it keeps. */
  lemma SearchLayerSettles(q: Query, ep: int)
    requires ValidLayer(q.layer) && 0 <= ep < Nodes(q)
    ensures Settled(Expand(MinFirst, q, Start(MinFirst, q, ep)))
  {
    StartInv(MinFirst, q, ep);
    ExpandSettles(q, ep, Start(MinFirst, q, ep));
  }
}
