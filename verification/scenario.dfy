/** The worked example of a two-line network: line A runs X, Y, Z and line B
    runs Y, W, with a transfer between the two stations named Y. */
module Scenario {
  import opened Wrappers
  import opened Network
  import opened RouteSearch
  import opened RouteProperties

  const X := Station(1, "A", "X", [], None, Some(2))
  const Y1 := Station(2, "A", "Y", [4], Some(1), Some(3))
  const Z := Station(3, "A", "Z", [], Some(2), None)
  const Y2 := Station(4, "B", "Y", [2], None, Some(5))
  const W := Station(5, "B", "W", [], Some(4), None)

  function Sample(): Graph
  {
    Graph(map[1 := X, 2 := Y1, 3 := Z, 4 := Y2, 5 := W], map["A" := [X, Y1, Z], "B" := [Y2, W]])
  }

  /** The rows the sample network is loaded from. */
  const Rows: seq<Record> := [
    Record(1, "A", "X", []), Record(2, "A", "Y", [4]), Record(3, "A", "Z", []),
    Record(4, "B", "Y", [2]), Record(5, "B", "W", [])]

  lemma SampleGrouping()
    ensures Grouped(Rows, |Rows|) == map["A" := [0, 1, 2], "B" := [3, 4]]
  {
    SampleGroupingFour();
    var m := map["A" := [0, 1, 2], "B" := [3]];
    assert Rows[4].line == "B" && "B" in m;
    assert [3] + [4] == [3, 4];
    assert m["B" := [3] + [4]] == map["A" := [0, 1, 2], "B" := [3, 4]];
  }

  lemma SampleGroupingFour()
    ensures Grouped(Rows, 4) == map["A" := [0, 1, 2], "B" := [3]]
  {
    SampleGroupingThree();
    var m := map["A" := [0, 1, 2]];
    assert Rows[3].line == "B" && "B" !in m;
    assert [] + [3] == [3];
    assert m["B" := [] + [3]] == map["A" := [0, 1, 2], "B" := [3]];
  }

  lemma SampleGroupingThree()
    ensures Grouped(Rows, 3) == map["A" := [0, 1, 2]]
  {
    assert [] + [0] == [0] && [0] + [1] == [0, 1] && [0, 1] + [2] == [0, 1, 2];
    assert Grouped(Rows, 1) == map["A" := [0]];
    assert Grouped(Rows, 2) == map["A" := [0, 1]];
  }

  lemma SampleLinkA()
    ensures LinkLine(Rows, [0, 1, 2]) == [X, Y1, Z]
  {
  }

  lemma SampleLinkB()
    ensures LinkLine(Rows, [3, 4]) == [Y2, W]
  {
  }

  lemma SampleLines()
    ensures BuildLines(Rows) == Sample().lines
  {
    SampleGrouping();
    SampleLinkA();
    SampleLinkB();
    var G := Grouped(Rows, |Rows|);
    assert G.Keys == {"A", "B"};
  }

  lemma SamplePositions()
    ensures Position(Rows, 0) == 0 && Position(Rows, 1) == 1 && Position(Rows, 2) == 2
    ensures Position(Rows, 3) == 0 && Position(Rows, 4) == 1
  {
    SampleGroupingThree();
    SampleGroupingFour();
    assert [] + [0] == [0] && [0] + [1] == [0, 1];
    assert Grouped(Rows, 1) == map["A" := [0]];
    assert Grouped(Rows, 2) == map["A" := [0, 1]];
  }

  lemma SampleObjectOf(k: nat)
    requires k < 5
    ensures ObjectOf(Rows, k) == [X, Y1, Z, Y2, W][k]
  {
    SampleLines();
    SamplePositions();
  }

  lemma SampleObjects()
    ensures Objects(Rows) == [X, Y1, Z, Y2, W]
  {
    var objs := Objects(Rows);
    forall k | 0 <= k < 5
      ensures objs[k] == [X, Y1, Z, Y2, W][k]
    {
      SampleObjectOf(k);
    }
  }

  lemma SampleStations()
    ensures StationsUpTo(Rows, [X, Y1, Z, Y2, W], 5) == Sample().stations
  {
    var objs := [X, Y1, Z, Y2, W];
    assert StationsUpTo(Rows, objs, 1) == map[1 := X];
    assert StationsUpTo(Rows, objs, 2) == map[1 := X, 2 := Y1];
    assert StationsUpTo(Rows, objs, 3) == map[1 := X, 2 := Y1, 3 := Z];
    assert StationsUpTo(Rows, objs, 4) == map[1 := X, 2 := Y1, 3 := Z, 4 := Y2];
  }

  /** Loading the rows gives the sample network. */
  lemma SampleIsBuilt()
    ensures Build(Rows) == Sample()
  {
    SampleLines();
    SampleObjects();
    SampleStations();
  }

  lemma SampleClosed()
    ensures Closed(Sample())
    ensures Resolvable(Sample(), X) && Resolvable(Sample(), Y1) && Resolvable(Sample(), Z)
    ensures Resolvable(Sample(), Y2) && Resolvable(Sample(), W)
  {
  }

  /** One call of `dfs` on a station that is neither visited nor the target
      enters it and tries the given moves from there. */
  lemma DfsEnters(g: Graph, target: Station, cur: Station, transfer: bool, st: State, moves: seq<Hop>)
    requires Closed(g) && Resolvable(g, cur) && st.visited <= g.stations.Keys
    requires cur.id !in st.visited && cur.id != target.id
    requires moves == Moves(g, target, cur, st.visited + {cur.id})
    requires forall i | 0 <= i < |moves| :: Resolvable(g, moves[i].station)
    ensures Dfs(g, target, cur, transfer, st).results
            == Explore(g, target, moves, State(st.visited + {cur.id}, st.path + [Hop(cur, transfer)], st.results, st.sigs)).results
  {
  }

  /** The moves the search tries at each station of the two example routes. */
  lemma SampleMoves()
    ensures Closed(Sample())
    ensures Moves(Sample(), W, X, {1}) == [Hop(Y1, false)]
    ensures Moves(Sample(), W, Y1, {1, 2}) == [Hop(Y2, true)]
    ensures Moves(Sample(), W, Y2, {1, 2, 4}) == [Hop(W, false)]
    ensures Moves(Sample(), Z, X, {1}) == [Hop(Y1, false)]
    ensures Moves(Sample(), Z, Y1, {1, 2}) == [Hop(X, false), Hop(Z, false)]
  {
    SampleClosed();
    var g := Sample();
    assert OpenTransfers(g, [], {1}) == [];
    assert OpenTransfers(g, [4], {1, 2}) == [Y2];
  }

  /** The stations the example searches find by name. */
  lemma SampleNames()
    ensures FirstNamed(Sample().lines["A"], "X") == Some(X)
    ensures FirstNamed(Sample().lines["A"], "Z") == Some(Z)
    ensures FirstNamed(Sample().lines["B"], "W") == Some(W)
  {
    assert [X, Y1, Z][1..] == [Y1, Z] && [Y1, Z][1..] == [Z];
    assert FirstNamed([Z], "Z") == Some(Z);
    assert FirstNamed([Y1, Z], "Z") == Some(Z);
  }

  // ----- From X on line A to W on line B -----

  const Cross: Path := [Hop(X, false), Hop(Y1, false), Hop(Y2, true), Hop(W, false)]

  lemma CrossAtW()
    ensures Closed(Sample()) && Resolvable(Sample(), W)
    ensures Dfs(Sample(), W, W, false, State({1, 2, 4}, Cross[..3], [], {})).results == [Cross]
  {
    SampleClosed();
    assert Cross[..3] + [Hop(W, false)] == Cross;
  }

  lemma CrossAtY2()
    ensures Closed(Sample()) && Resolvable(Sample(), Y2)
    ensures Dfs(Sample(), W, Y2, true, State({1, 2}, Cross[..2], [], {})).results == [Cross]
  {
    SampleClosed();
    var g := Sample();
    var e3 := State({1, 2, 4}, Cross[..3], [], {});
    CrossAtW();
    var e2 := State({1, 2}, Cross[..2], [], {});
    assert e3 == State(e2.visited + {4}, e2.path + [Hop(Y2, true)], [], {}) by {
      assert Cross[..2] + [Hop(Y2, true)] == Cross[..3];
    }
    DfsEnters(g, W, Y2, true, e2, [Hop(W, false)]);
    SampleMoves();
    assert Explore(g, W, [Hop(W, false)], e3) == Explore(g, W, [], Dfs(g, W, W, false, e3));
  }

  lemma CrossAtY1()
    ensures Closed(Sample()) && Resolvable(Sample(), Y1)
    ensures Dfs(Sample(), W, Y1, false, State({1}, Cross[..1], [], {})).results == [Cross]
  {
    SampleClosed();
    var g := Sample();
    var e2 := State({1, 2}, Cross[..2], [], {});
    CrossAtY2();
    var e1 := State({1}, Cross[..1], [], {});
    assert e2 == State(e1.visited + {2}, e1.path + [Hop(Y1, false)], [], {}) by {
      assert Cross[..1] + [Hop(Y1, false)] == Cross[..2];
    }
    DfsEnters(g, W, Y1, false, e1, [Hop(Y2, true)]);
    SampleMoves();
    assert Explore(g, W, [Hop(Y2, true)], e2) == Explore(g, W, [], Dfs(g, W, Y2, true, e2));
  }

  lemma CrossAtX()
    ensures Closed(Sample()) && Resolvable(Sample(), X)
    ensures Dfs(Sample(), W, X, false, Fresh()).results == [Cross]
  {
    SampleClosed();
    var g := Sample();
    var e1 := State({1}, Cross[..1], [], {});
    CrossAtY1();
    assert e1 == State(Fresh().visited + {1}, Fresh().path + [Hop(X, false)], [], {}) by {
      assert [] + [Hop(X, false)] == Cross[..1];
    }
    DfsEnters(g, W, X, false, Fresh(), [Hop(Y1, false)]);
    SampleMoves();
    assert Explore(g, W, [Hop(Y1, false)], e1) == Explore(g, W, [], Dfs(g, W, Y1, false, e1));
  }

  /** From X on line A to W on line B the one route rides to Y, transfers to
      the other Y and rides on to W. */
  lemma CrossLineScenario()
    ensures Closed(Sample())
    ensures FindRoute(Sample(), "A", "X", "B", "W") == Ok([Cross])
  {
    SampleClosed();
    SampleNames();
    CrossAtX();
    FindRouteSearches(Sample(), "A", "X", "B", "W", X, W);
  }

  // ----- From X to Z, both on line A -----

  const Along: Path := [Hop(X, false), Hop(Y1, false), Hop(Z, false)]

  lemma AlongAtY1()
    ensures Closed(Sample()) && Resolvable(Sample(), Y1)
    ensures Dfs(Sample(), Z, Y1, false, State({1}, Along[..1], [], {})).results == [Along]
  {
    SampleClosed();
    var g := Sample();
    var e1 := State({1}, Along[..1], [], {});
    var e2 := State({1, 2}, Along[..2], [], {});
    assert e2 == State(e1.visited + {2}, e1.path + [Hop(Y1, false)], [], {}) by {
      assert Along[..1] + [Hop(Y1, false)] == Along[..2];
    }
    SampleMoves();
    DfsEnters(g, Z, Y1, false, e1, [Hop(X, false), Hop(Z, false)]);
    assert Dfs(g, Z, X, false, e2) == e2;
    assert Explore(g, Z, [Hop(X, false), Hop(Z, false)], e2) == Explore(g, Z, [Hop(Z, false)], e2) by {
      assert [Hop(X, false), Hop(Z, false)][1..] == [Hop(Z, false)];
    }
    assert Explore(g, Z, [Hop(Z, false)], e2) == Explore(g, Z, [], Dfs(g, Z, Z, false, e2));
    assert Dfs(g, Z, Z, false, e2).results == [Along] by {
      assert Along[..2] + [Hop(Z, false)] == Along;
    }
  }

  lemma AlongAtX()
    ensures Closed(Sample()) && Resolvable(Sample(), X)
    ensures Dfs(Sample(), Z, X, false, Fresh()).results == [Along]
  {
    SampleClosed();
    var g := Sample();
    var e1 := State({1}, Along[..1], [], {});
    AlongAtY1();
    assert e1 == State(Fresh().visited + {1}, Fresh().path + [Hop(X, false)], [], {}) by {
      assert [] + [Hop(X, false)] == Along[..1];
    }
    SampleMoves();
    DfsEnters(g, Z, X, false, Fresh(), [Hop(Y1, false)]);
    assert Explore(g, Z, [Hop(Y1, false)], e1) == Explore(g, Z, [], Dfs(g, Z, Y1, false, e1));
  }

  /** From X to Z on the same line the one route rides along line A, and the
      step back to X from Y is abandoned because X is on the path. */
  lemma SameLineScenario()
    ensures Closed(Sample())
    ensures FindRoute(Sample(), "A", "X", "A", "Z") == Ok([Along])
  {
    SampleClosed();
    SampleNames();
    AlongAtX();
    FindRouteSearches(Sample(), "A", "X", "A", "Z", X, Z);
  }

  // ----- Lookups that fail -----

  /** A name missing from its line gives no routes. */
  lemma MissingNameScenario()
    ensures Closed(Sample())
    ensures FindRoute(Sample(), "A", "W", "B", "W") == Ok([])
  {
    SampleClosed();
    var g := Sample();
    assert g.lines["A"] == [X, Y1, Z];
    assert forall i | 0 <= i < |g.lines["A"]| :: g.lines["A"][i].name != "W";
  }

  /** A line missing from the network is an error naming that line. */
  lemma UnknownLineScenario()
    ensures Closed(Sample())
    ensures FindRoute(Sample(), "A", "X", "C", "W") == Err(UnknownLine("C"))
  {
    SampleClosed();
    assert "A" in Sample().lines && "C" !in Sample().lines;
  }
}
