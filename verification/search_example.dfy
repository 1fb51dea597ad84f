/**
 * A four-node level on which the walk with a farthest-first frontier stops
 * early and returns a node that is not the nearest reachable one, while the
 * nearest-first walk finds it.
 *
 * Node vectors are (4), (3), (2), (1); node 0 links to 1 and 2, node 2
 * links to 3; the query is (0), `ef` is 1 and the entry point is node 0.
 * Squared distances are 16, 9, 4 and 1.
 */
module SearchExample {
  import opened Heaps
  import opened Search
  import Distance

  /** `L2Distance` over vectors of equal dimension. */
  function L2(a: seq<int>, b: seq<int>): int
  {
    if |a| == |b| then Distance.SumSquares(a, b) else 0
  }

  function Example(): Query
  {
    Query(Layer([[4], [3], [2], [1]], [[1, 2], [], [3], []]), L2, [0], 1)
  }

  lemma ExampleLayer()
    ensures ValidLayer(Example().layer) && Nodes(Example()) == 4
    ensures Dist(Example(), 0) == 16 && Dist(Example(), 1) == 9
    ensures Dist(Example(), 2) == 4 && Dist(Example(), 3) == 1
  {
    assert [0][..0] == [] && [4][..0] == [] && [3][..0] == [] && [2][..0] == [] && [1][..0] == [];
  }

  /** Node 3 is reachable from node 0 through node 2. */
  lemma ExampleReach()
    ensures Reachable(Example().layer, 0, 3)
  {
    assert IsPath(Example().layer, [0, 2, 3]);
  }

  // Heaps of one and two entries, as the walk on this level builds them.

  lemma BagOne(a: Item)
    ensures Bag([a]) == multiset{Key(a)}
  {
    assert Keys([a]) == [Key(a)];
  }

  lemma BagTwo(a: Item, b: Item)
    ensures Bag([a, b]) == multiset{Key(a), Key(b)}
  {
    assert Keys([a, b]) == [Key(a), Key(b)];
  }

  lemma PushEmpty(o: Order, x: Item)
    ensures Push(o, [], x) == [x.(index := 0)]
  {
  }

  lemma PushStays(o: Order, a: Item, x: Item)
    requires a.index == 0 && !Prior(o, x.priority, a.priority)
    ensures Push(o, [a], x) == [a, x.(index := 1)]
  {
    assert Append([a], x) == [a, x.(index := 1)];
  }

  lemma PushClimbs(o: Order, a: Item, x: Item)
    requires Prior(o, x.priority, a.priority)
    ensures Push(o, [a], x) == [x.(index := 0), a.(index := 1)]
  {
    var h := Append([a], x);
    assert h == [a, x.(index := 1)];
    assert Swap(h, 0, 1) == [x.(index := 0), a.(index := 1)];
  }

  lemma PopOne(o: Order, a: Item)
    requires a.index == 0
    ensures Pop(o, [a]) == Popped([], a.(index := -1))
  {
    assert Swap([a], 0, 0) == [a];
  }

  lemma PopTwo(o: Order, a: Item, b: Item)
    ensures Pop(o, [a, b]) == Popped([b.(index := 0)], a.(index := -1))
  {
    var h := Swap([a, b], 0, 1);
    assert h == [b.(index := 0), a.(index := 1)];
    assert Down(o, h, 0, 1) == h;
  }

  /** A new node nearer than the one result replaces it (`ef` is 1). */
  lemma VisitNearer(o: Order, st: State, n: int, r: Item, x: Item)
    requires ValidLayer(Example().layer) && Bounded(Example(), st) && 0 <= n < Nodes(Example())
    requires n !in st.visited && st.results == [r] && r.index == 0
    requires x == Item(n, Dist(Example(), n), 0) && x.priority < r.priority
    ensures Visit(o, Example(), st, n)
      == State(st.visited + {n}, Push(o, st.candidates, x), [x])
  {
    PushStays(MaxFirst, r, x);
    PopTwo(MaxFirst, r, x.(index := 1));
  }

  /** As written: after expanding node 0 the frontier hands out node 1,
      the farthest candidate; it is farther than the one result, node 2,
      so the walk stops with node 3, the nearest, never visited. */
  lemma AsWrittenMisses()
    ensures ValidLayer(Example().layer)
    ensures SearchLayerAsWritten(Example(), 0) == [SearchResult(2, 4)]
    ensures Dist(Example(), 3) == 1 && Reachable(Example().layer, 0, 3)
    ensures !Settled(Expand(MaxFirst, Example(), Start(MaxFirst, Example(), 0)))
  {
    var q := Example();
    ExampleLayer();
    ExampleReach();
    var s0 := Start(MaxFirst, q, 0);
    FirstRound(MaxFirst);
    PushStays(MaxFirst, Item(1, 9, 0), Item(2, 4, 0));
    var c := State({0, 1, 2}, [Item(1, 9, 0), Item(2, 4, 1)], [Item(2, 4, 0)]);
    var d := State({0, 1, 2}, [Item(2, 4, 0)], [Item(2, 4, 0)]);
    AsWrittenSecondRound();
    assert Expand(MaxFirst, q, c) == d;
    assert Expand(MaxFirst, q, s0) == d;
    PopOne(MaxFirst, Item(2, 4, 0));
    assert Drain([Item(2, 4, 0)]) == [SearchResult(2, 4)];
    assert Keys(d.candidates)[0] == Entry(2, 4) && Keys(d.results)[0] == Entry(2, 4);
  }

  /** Node 1, then node 2, replace the single result in turn. */
  lemma VisitOne(o: Order)
    ensures Visit(o, Example(), State({0}, [], [Item(0, 16, 0)]), 1)
      == State({0, 1}, [Item(1, 9, 0)], [Item(1, 9, 0)])
  {
    ExampleLayer();
    PushEmpty(o, Item(1, 9, 0));
    VisitNearer(o, State({0}, [], [Item(0, 16, 0)]), 1, Item(0, 16, 0), Item(1, 9, 0));
  }

  lemma VisitTwo(o: Order)
    ensures Visit(o, Example(), State({0, 1}, [Item(1, 9, 0)], [Item(1, 9, 0)]), 2)
      == State({0, 1, 2}, Push(o, [Item(1, 9, 0)], Item(2, 4, 0)), [Item(2, 4, 0)])
  {
    ExampleLayer();
    VisitNearer(o, State({0, 1}, [Item(1, 9, 0)], [Item(1, 9, 0)]), 2, Item(1, 9, 0), Item(2, 4, 0));
  }

  /** The first round expands the entry point, whatever the frontier order. */
  lemma FirstRound(o: Order)
    ensures Next(o, Example(), Start(o, Example(), 0))
      == Continue(State({0, 1, 2}, Push(o, [Item(1, 9, 0)], Item(2, 4, 0)), [Item(2, 4, 0)]))
  {
    var q := Example();
    ExampleLayer();
    PushEmpty(o, Item(0, 16, 0));
    PushEmpty(MaxFirst, Item(0, 16, 0));
    assert Start(o, q, 0) == State({0}, [Item(0, 16, 0)], [Item(0, 16, 0)]);
    PopOne(o, Item(0, 16, 0));
    var a := State({0}, [], [Item(0, 16, 0)]);
    var b := State({0, 1}, [Item(1, 9, 0)], [Item(1, 9, 0)]);
    var c := State({0, 1, 2}, Push(o, [Item(1, 9, 0)], Item(2, 4, 0)), [Item(2, 4, 0)]);
    VisitOne(o);
    VisitTwo(o);
    assert q.layer.connections[0] == [1, 2];
    assert VisitAll(o, q, c, [1, 2], 2) == c;
    assert VisitAll(o, q, b, [1, 2], 1) == c;
    assert VisitAll(o, q, a, [1, 2], 0) == c;
  }

  lemma AsWrittenSecondRound()
    ensures Next(MaxFirst, Example(), State({0, 1, 2}, [Item(1, 9, 0), Item(2, 4, 1)], [Item(2, 4, 0)]))
      == Stop(State({0, 1, 2}, [Item(2, 4, 0)], [Item(2, 4, 0)]))
  {
    ExampleLayer();
    PopTwo(MaxFirst, Item(1, 9, 0), Item(2, 4, 1));
  }

  /** Corrected: the nearest-first frontier expands node 2 before node 1,
      reaches node 3, and stops on node 1 only once node 3 is the result. */
  lemma CorrectedFinds()
    ensures ValidLayer(Example().layer)
    ensures SearchLayer(Example(), 0) == [SearchResult(3, 1)]
    ensures Settled(Expand(MinFirst, Example(), Start(MinFirst, Example(), 0)))
  {
    var q := Example();
    ExampleLayer();
    var s0 := Start(MinFirst, q, 0);
    FirstRound(MinFirst);
    PushClimbs(MinFirst, Item(1, 9, 0), Item(2, 4, 0));
    var c := State({0, 1, 2}, [Item(2, 4, 0), Item(1, 9, 1)], [Item(2, 4, 0)]);
    var e := State({0, 1, 2, 3}, [Item(3, 1, 0), Item(1, 9, 1)], [Item(3, 1, 0)]);
    var f := State({0, 1, 2, 3}, [Item(1, 9, 0)], [Item(3, 1, 0)]);
    var g := State({0, 1, 2, 3}, [], [Item(3, 1, 0)]);
    CorrectedSecondRound();
    CorrectedLastRounds();
    assert Expand(MinFirst, q, f) == g;
    assert Expand(MinFirst, q, e) == g;
    assert Expand(MinFirst, q, c) == g;
    assert Expand(MinFirst, q, s0) == g;
    PopOne(MaxFirst, Item(3, 1, 0));
    assert Drain([Item(3, 1, 0)]) == [SearchResult(3, 1)];
  }

  /** Node 3 replaces node 2 as the result. */
  lemma VisitThree()
    ensures Visit(MinFirst, Example(), State({0, 1, 2}, [Item(1, 9, 0)], [Item(2, 4, 0)]), 3)
      == State({0, 1, 2, 3}, [Item(3, 1, 0), Item(1, 9, 1)], [Item(3, 1, 0)])
  {
    ExampleLayer();
    BagOne(Item(1, 9, 0));
    BagOne(Item(2, 4, 0));
    PushClimbs(MinFirst, Item(1, 9, 0), Item(3, 1, 0));
    VisitNearer(MinFirst, State({0, 1, 2}, [Item(1, 9, 0)], [Item(2, 4, 0)]), 3, Item(2, 4, 0), Item(3, 1, 0));
  }

  lemma CorrectedSecondRound()
    ensures Next(MinFirst, Example(), State({0, 1, 2}, [Item(2, 4, 0), Item(1, 9, 1)], [Item(2, 4, 0)]))
      == Continue(State({0, 1, 2, 3}, [Item(3, 1, 0), Item(1, 9, 1)], [Item(3, 1, 0)]))
  {
    var q := Example();
    ExampleLayer();
    BagTwo(Item(2, 4, 0), Item(1, 9, 1));
    BagOne(Item(2, 4, 0));
    BagOne(Item(1, 9, 0));
    BagTwo(Item(3, 1, 0), Item(1, 9, 1));
    BagOne(Item(3, 1, 0));
    PopTwo(MinFirst, Item(2, 4, 0), Item(1, 9, 1));
    var a := State({0, 1, 2}, [Item(1, 9, 0)], [Item(2, 4, 0)]);
    var b := State({0, 1, 2, 3}, [Item(3, 1, 0), Item(1, 9, 1)], [Item(3, 1, 0)]);
    VisitThree();
    assert q.layer.connections[2] == [3];
    assert VisitAll(MinFirst, q, b, [3], 1) == b;
    assert VisitAll(MinFirst, q, a, [3], 0) == b;
  }

  lemma CorrectedLastRounds()
    ensures Next(MinFirst, Example(), State({0, 1, 2, 3}, [Item(3, 1, 0), Item(1, 9, 1)], [Item(3, 1, 0)]))
      == Continue(State({0, 1, 2, 3}, [Item(1, 9, 0)], [Item(3, 1, 0)]))
    ensures Next(MinFirst, Example(), State({0, 1, 2, 3}, [Item(1, 9, 0)], [Item(3, 1, 0)]))
      == Stop(State({0, 1, 2, 3}, [], [Item(3, 1, 0)]))
  {
    var q := Example();
    ExampleLayer();
    PopTwo(MinFirst, Item(3, 1, 0), Item(1, 9, 1));
    PopOne(MinFirst, Item(1, 9, 0));
    var f := State({0, 1, 2, 3}, [Item(1, 9, 0)], [Item(3, 1, 0)]);
    assert q.layer.connections[3] == [];
    assert VisitAll(MinFirst, q, f, [], 0) == f;
  }
}
