/** What `find_route` returns, stated without the search state: the depth-first
    search is shown to return, in discovery order, one route per signature among
    the routes of a plain recursive enumeration, and those routes are exactly the
    simple walks that follow the search's move rules to the target. */
module RouteProperties {
  import opened Wrappers
  import opened Network
  import opened PathSignature
  import opened RouteSearch

  /** The ids on a path: the search's `visited` set for that path. */
  function IdSet(p: Path): set<int>
  {
    set i | 0 <= i < |p| :: p[i].station.id
  }

  lemma IdSetSnoc(p: Path, h: Hop)
    ensures IdSet(p + [h]) == IdSet(p) + {h.station.id}
  {
    var q := p + [h];
    assert q[|p|] == h;
    forall x | x in IdSet(p)
      ensures x in IdSet(q)
    {
      var i :| 0 <= i < |p| && p[i].station.id == x;
      assert q[i] == p[i];
    }
  }

  /** A station that occurs before position `j` has its id in the ids before `j`. */
  lemma InIdSet(p: Path, i: nat, j: nat)
    requires i < j <= |p|
    ensures p[i].station.id in IdSet(p[..j])
  {
    assert p[..j][i] == p[i];
  }

  // ----- The enumeration -----

  /** Every route the search reaches through `cur`, entered from the end of
      `path`, in discovery order and before any deduplication. */
  function Enumerate(g: Graph, target: Station, cur: Station, transfer: bool, path: Path): seq<Path>
    requires Closed(g) && Resolvable(g, cur) && IdSet(path) <= g.stations.Keys
    decreases g.stations.Keys - IdSet(path), 0
  {
    if cur.id in IdSet(path) then []
    else
      var next := path + [Hop(cur, transfer)];
      IdSetSnoc(path, Hop(cur, transfer));
      MovesFromTable(g, target, cur, IdSet(next));
      if cur.id == target.id then [next]
      else EnumerateAll(g, target, Moves(g, target, cur, IdSet(next)), next)
  }

  function EnumerateAll(g: Graph, target: Station, moves: seq<Hop>, path: Path): seq<Path>
    requires Closed(g) && IdSet(path) <= g.stations.Keys
    requires forall i | 0 <= i < |moves| :: Resolvable(g, moves[i].station)
    decreases g.stations.Keys - IdSet(path), 1, |moves|
  {
    if moves == [] then []
    else Enumerate(g, target, moves[0].station, moves[0].transfer, path) + EnumerateAll(g, target, moves[1..], path)
  }

  // ----- Keeping the first route of every signature -----

  /** The keys of the routes of `ps`. */
  function Keys(ps: seq<Path>, key: Path -> string): set<string>
  {
    if ps == [] then {} else {key(ps[0])} + Keys(ps[1..], key)
  }

  /** The routes of `ps` in order, each dropped when its key is in `seen` or
      belongs to an earlier route; the search uses `Signature` as the key. */
  function Dedup(ps: seq<Path>, key: Path -> string, seen: set<string>): seq<Path>
  {
    if ps == [] then []
    else if key(ps[0]) in seen then Dedup(ps[1..], key, seen)
    else [ps[0]] + Dedup(ps[1..], key, seen + {key(ps[0])})
  }

  lemma {:induction false} KeysAppend(a: seq<Path>, b: seq<Path>, key: Path -> string)
    ensures Keys(a + b, key) == Keys(a, key) + Keys(b, key)
  {
    if a != [] {
      assert (a + b)[1..] == a[1..] + b;
      KeysAppend(a[1..], b, key);
    } else {
      assert a + b == b;
    }
  }

  lemma {:induction false} KeysMembers(ps: seq<Path>, key: Path -> string, x: string)
    ensures x in Keys(ps, key) <==> exists i | 0 <= i < |ps| :: key(ps[i]) == x
  {
    if ps != [] {
      KeysMembers(ps[1..], key, x);
      if x in Keys(ps[1..], key) {
        var i :| 0 <= i < |ps[1..]| && key(ps[1..][i]) == x;
        assert ps[i + 1] == ps[1..][i];
      }
      if exists i | 0 <= i < |ps| :: key(ps[i]) == x {
        var i :| 0 <= i < |ps| && key(ps[i]) == x;
        if i > 0 {
          assert ps[1..][i - 1] == ps[i];
        }
      }
    }
  }

  lemma {:induction false} DedupAppend(a: seq<Path>, b: seq<Path>, key: Path -> string, seen: set<string>)
    ensures Dedup(a + b, key, seen) == Dedup(a, key, seen) + Dedup(b, key, seen + Keys(a, key))
  {
    if a == [] {
      assert a + b == b;
      assert seen + Keys(a, key) == seen;
    } else {
      assert (a + b)[0] == a[0];
      assert (a + b)[1..] == a[1..] + b;
      var k := key(a[0]);
      if k in seen {
        DedupAppend(a[1..], b, key, seen);
        assert seen + Keys(a, key) == seen + Keys(a[1..], key);
      } else {
        DedupAppend(a[1..], b, key, seen + {k});
        assert seen + {k} + Keys(a[1..], key) == seen + Keys(a, key);
      }
    }
  }

  /** Deduplication records every key it meets: those of the kept routes
      together with `seen` are those of all routes together with `seen`. */
  lemma {:induction false} DedupKeepsEveryKey(ps: seq<Path>, key: Path -> string, seen: set<string>)
    ensures seen + Keys(Dedup(ps, key, seen), key) == seen + Keys(ps, key)
  {
    if ps != [] {
      var k := key(ps[0]);
      if k in seen {
        DedupKeepsEveryKey(ps[1..], key, seen);
      } else {
        var rest := Dedup(ps[1..], key, seen + {k});
        DedupKeepsEveryKey(ps[1..], key, seen + {k});
        assert ([ps[0]] + rest)[1..] == rest;
      }
    }
  }

  /** No kept route has a key of `seen`, and no two kept routes share one. */
  lemma {:induction false} DedupKeysDistinct(ps: seq<Path>, key: Path -> string, seen: set<string>)
    ensures forall i | 0 <= i < |Dedup(ps, key, seen)| :: key(Dedup(ps, key, seen)[i]) !in seen
    ensures forall i, j | 0 <= i < j < |Dedup(ps, key, seen)| ::
      key(Dedup(ps, key, seen)[i]) != key(Dedup(ps, key, seen)[j])
  {
    if ps != [] {
      var k := key(ps[0]);
      if k in seen {
        DedupKeysDistinct(ps[1..], key, seen);
      } else {
        var rest := Dedup(ps[1..], key, seen + {k});
        DedupKeysDistinct(ps[1..], key, seen + {k});
        var d := Dedup(ps, key, seen);
        assert d == [ps[0]] + rest;
        forall i, j | 0 <= i < j < |d|
          ensures key(d[i]) != key(d[j])
        {
          assert d[j] == rest[j - 1];
          if i > 0 {
            assert d[i] == rest[i - 1];
          }
        }
        forall i | 0 <= i < |d|
          ensures key(d[i]) !in seen
        {
          if i > 0 {
            assert d[i] == rest[i - 1];
          }
        }
      }
    }
  }

  /** `ps[j]` is the first route of `ps` with its key, and that key is not in `seen`. */
  ghost predicate FirstOfKey(ps: seq<Path>, key: Path -> string, seen: set<string>, j: nat)
    requires j < |ps|
  {
    key(ps[j]) !in seen && forall k | 0 <= k < j :: key(ps[k]) != key(ps[j])
  }

  /** Every kept route is the first route of `ps` with its key. */
  lemma {:induction false} DedupKeepsFirst(ps: seq<Path>, key: Path -> string, seen: set<string>, i: nat)
    returns (j: nat)
    requires i < |Dedup(ps, key, seen)|
    ensures j < |ps| && Dedup(ps, key, seen)[i] == ps[j] && FirstOfKey(ps, key, seen, j)
  {
    var k := key(ps[0]);
    var d := Dedup(ps, key, seen);
    if k !in seen && i == 0 {
      j := 0;
    } else {
      var seen' := if k in seen then seen else seen + {k};
      var i' := if k in seen then i else i - 1;
      var rest := Dedup(ps[1..], key, seen');
      assert d[i] == rest[i'];
      var j' := DedupKeepsFirst(ps[1..], key, seen', i');
      j := j' + 1;
      assert ps[j] == ps[1..][j'];
      forall m | 0 <= m < j
        ensures key(ps[m]) != key(ps[j])
      {
        if m > 0 {
          assert ps[m] == ps[1..][m - 1];
        }
      }
    }
  }

  // ----- The search is the deduplicated enumeration -----

  /** `dfs` appends to the results the routes through `cur` that the
      enumeration finds, minus those whose signature was already recorded, and
      records their signatures. */
  lemma {:induction false} DfsIsDedupedEnumeration(g: Graph, target: Station, cur: Station, transfer: bool, st: State)
    requires Closed(g) && Resolvable(g, cur) && st.visited <= g.stations.Keys
    requires st.visited == IdSet(st.path)
    ensures var found := Enumerate(g, target, cur, transfer, st.path);
      Dfs(g, target, cur, transfer, st) == State(st.visited, st.path, st.results + Dedup(found, Signature, st.sigs), st.sigs + Keys(found, Signature))
    decreases g.stations.Keys - st.visited, 0
  {
    if cur.id !in st.visited {
      var h := Hop(cur, transfer);
      var next := st.path + [h];
      IdSetSnoc(st.path, h);
      var entered := State(st.visited + {cur.id}, next, st.results, st.sigs);
      MovesFromTable(g, target, cur, entered.visited);
      assert next[..|next| - 1] == st.path;
      if cur.id == target.id {
        AcceptIsDedup(entered);
      } else {
        var moves := Moves(g, target, cur, entered.visited);
        ExploreIsDedupedEnumeration(g, target, moves, entered);
      }
    }
  }

  /** Recording one route is deduplicating a one-route list. */
  lemma AcceptIsDedup(st: State)
    ensures Accept(st) == State(st.visited, st.path, st.results + Dedup([st.path], Signature, st.sigs),
                                st.sigs + Keys([st.path], Signature))
  {
    var sig := Signature(st.path);
    assert Keys([st.path], Signature) == {sig};
    if sig in st.sigs {
      assert Dedup([st.path], Signature, st.sigs) == [];
    } else {
      assert Dedup([st.path], Signature, st.sigs) == [st.path];
    }
  }

  lemma {:induction false} ExploreIsDedupedEnumeration(g: Graph, target: Station, moves: seq<Hop>, st: State)
    requires Closed(g) && st.visited <= g.stations.Keys
    requires forall i | 0 <= i < |moves| :: Resolvable(g, moves[i].station)
    requires st.visited == IdSet(st.path)
    ensures var found := EnumerateAll(g, target, moves, st.path);
      Explore(g, target, moves, st) == State(st.visited, st.path, st.results + Dedup(found, Signature, st.sigs), st.sigs + Keys(found, Signature))
    decreases g.stations.Keys - st.visited, 1, |moves|
  {
    if moves != [] {
      var first := Enumerate(g, target, moves[0].station, moves[0].transfer, st.path);
      var rest := EnumerateAll(g, target, moves[1..], st.path);
      DfsIsDedupedEnumeration(g, target, moves[0].station, moves[0].transfer, st);
      var mid := Dfs(g, target, moves[0].station, moves[0].transfer, st);
      ExploreIsDedupedEnumeration(g, target, moves[1..], mid);
      ExploreStep(g, target, moves, st);
      DedupInTwoSteps(st, Signature, first, rest, mid, Explore(g, target, moves[1..], mid));
    }
  }

  /** One turn of the loop over the moves, and the matching split of the enumeration. */
  lemma ExploreStep(g: Graph, target: Station, moves: seq<Hop>, st: State)
    requires Closed(g) && st.visited <= g.stations.Keys && moves != []
    requires forall i | 0 <= i < |moves| :: Resolvable(g, moves[i].station)
    requires IdSet(st.path) <= g.stations.Keys
    ensures Explore(g, target, moves, st)
            == Explore(g, target, moves[1..], Dfs(g, target, moves[0].station, moves[0].transfer, st))
    ensures EnumerateAll(g, target, moves, st.path)
            == Enumerate(g, target, moves[0].station, moves[0].transfer, st.path) + EnumerateAll(g, target, moves[1..], st.path)
  {
  }

  /** Deduplicating `first` and then `rest` from the state left behind is
      deduplicating `first + rest` at once. */
  lemma DedupInTwoSteps(st: State, key: Path -> string, first: seq<Path>, rest: seq<Path>, mid: State, fin: State)
    requires mid == State(st.visited, st.path, st.results + Dedup(first, key, st.sigs), st.sigs + Keys(first, key))
    requires fin == State(st.visited, st.path, mid.results + Dedup(rest, key, mid.sigs), mid.sigs + Keys(rest, key))
    ensures fin == State(st.visited, st.path, st.results + Dedup(first + rest, key, st.sigs), st.sigs + Keys(first + rest, key))
  {
    DedupAppend(first, rest, key, st.sigs);
    KeysAppend(first, rest, key);
  }

  /** The two ends `find_route` resolves for its four arguments. */
  predicate Ends(g: Graph, startLine: string, startName: string, endLine: string, endName: string,
                 start: Station, end: Station)
  {
    && startLine in g.lines && endLine in g.lines
    && FirstNamed(g.lines[startLine], startName) == Some(start)
    && FirstNamed(g.lines[endLine], endName) == Some(end)
  }

  /** A station found by name on a line of a closed graph can be searched from. */
  lemma FoundResolvable(g: Graph, line: string, name: string)
    requires Closed(g) && line in g.lines && FirstNamed(g.lines[line], name).Some?
    ensures Resolvable(g, FirstNamed(g.lines[line], name).value)
  {
    var ss := g.lines[line];
    var i :| 0 <= i < |ss| && ss[i] == FirstNamed(ss, name).value;
    assert Resolvable(g, ss[i]);
  }

  /** With both ends found, `find_route` returns the results of one search
      from a fresh state. */
  lemma FindRouteSearches(g: Graph, startLine: string, startName: string, endLine: string,
                          endName: string, start: Station, end: Station)
    requires Closed(g) && Ends(g, startLine, startName, endLine, endName, start, end)
    ensures Resolvable(g, start)
    ensures FindRoute(g, startLine, startName, endLine, endName) == Ok(Dfs(g, end, start, false, Fresh()).results)
  {
    FoundResolvable(g, startLine, startName);
  }

  /** `find_route` returns the enumerated routes from `start` to `end`, keeping
      the first route of every signature, in discovery order. */
  lemma FindRouteIsDedupedEnumeration(g: Graph, startLine: string, startName: string, endLine: string,
                                      endName: string, start: Station, end: Station)
    requires Closed(g) && Ends(g, startLine, startName, endLine, endName, start, end)
    ensures Resolvable(g, start)
    ensures FindRoute(g, startLine, startName, endLine, endName)
            == Ok(Dedup(Enumerate(g, end, start, false, []), Signature, {}))
  {
    FindRouteSearches(g, startLine, startName, endLine, endName, start, end);
    assert IdSet([]) == {};
    DfsIsDedupedEnumeration(g, end, start, false, Fresh());
    var found := Enumerate(g, end, start, false, []);
    assert [] + Dedup(found, Signature, {}) == Dedup(found, Signature, {});
  }

  // ----- Which paths the enumeration produces -----

  /** Step `i` of `p` is one the search takes: from a station other than the
      target to one of the moves tried there, given the ids up to that station. */
  ghost predicate StepOk(g: Graph, target: Station, p: Path, i: nat)
    requires i + 1 < |p|
  {
    && p[i].station.id != target.id
    && RefsIn(g, p[i].station)
    && p[i + 1] in Moves(g, target, p[i].station, IdSet(p[..i + 1]))
  }

  /** `p` is `path` followed by `first` and further hops such that no id is
      repeated, every step after `path` is a search step and the last station
      is the target. */
  ghost predicate Continues(g: Graph, target: Station, path: Path, first: Hop, p: Path)
  {
    && |path| < |p| && p[..|path|] == path && p[|path|] == first
    && (forall i | |path| <= i < |p| :: p[i].station.id !in IdSet(p[..i]))
    && (forall i | |path| <= i < |p| - 1 :: StepOk(g, target, p, i))
    && p[|p| - 1].station.id == target.id
  }

  /** A route from `start` to `target` as the search understands one. */
  ghost predicate IsRoute(g: Graph, target: Station, start: Station, p: Path)
  {
    Continues(g, target, [], Hop(start, false), p)
  }

  lemma {:induction false} EnumerateAllMembers(g: Graph, target: Station, moves: seq<Hop>, path: Path, p: Path)
    requires Closed(g) && IdSet(path) <= g.stations.Keys
    requires forall i | 0 <= i < |moves| :: Resolvable(g, moves[i].station)
    ensures p in EnumerateAll(g, target, moves, path) <==>
      exists j | 0 <= j < |moves| :: p in Enumerate(g, target, moves[j].station, moves[j].transfer, path)
  {
    if moves != [] {
      EnumerateAllMembers(g, target, moves[1..], path, p);
      if exists j | 0 <= j < |moves[1..]| :: p in Enumerate(g, target, moves[1..][j].station, moves[1..][j].transfer, path) {
        var j :| 0 <= j < |moves[1..]| && p in Enumerate(g, target, moves[1..][j].station, moves[1..][j].transfer, path);
        assert moves[1..][j] == moves[j + 1];
      }
      if exists j | 0 <= j < |moves| :: p in Enumerate(g, target, moves[j].station, moves[j].transfer, path) {
        var j :| 0 <= j < |moves| && p in Enumerate(g, target, moves[j].station, moves[j].transfer, path);
        if j > 0 {
          assert moves[1..][j - 1] == moves[j];
        }
      }
    }
  }

  /** Every enumerated path continues `path` with `cur` and follows the rules. */
  lemma {:induction false} EnumerateSound(g: Graph, target: Station, cur: Station, transfer: bool, path: Path, p: Path)
    requires Closed(g) && Resolvable(g, cur) && IdSet(path) <= g.stations.Keys
    requires p in Enumerate(g, target, cur, transfer, path)
    ensures Continues(g, target, path, Hop(cur, transfer), p)
    decreases g.stations.Keys - IdSet(path)
  {
    var h := Hop(cur, transfer);
    var next := path + [h];
    IdSetSnoc(path, h);
    MovesFromTable(g, target, cur, IdSet(next));
    assert next[..|path|] == path;
    if cur.id == target.id {
      assert p == next;
    } else {
      var moves := Moves(g, target, cur, IdSet(next));
      EnumerateAllMembers(g, target, moves, next, p);
      var j :| 0 <= j < |moves| && p in Enumerate(g, target, moves[j].station, moves[j].transfer, next);
      EnumerateSound(g, target, moves[j].station, moves[j].transfer, next, p);
      assert p[..|next|] == next;
      assert p[|next|] == moves[j];
      assert StepOk(g, target, p, |path|);
      ContinuesCons(g, target, path, h, p);
    }
  }

  /** Putting one search step in front of a continuation of `path + [h]`. */
  lemma ContinuesCons(g: Graph, target: Station, path: Path, h: Hop, p: Path)
    requires |path| + 1 < |p|
    requires Continues(g, target, path + [h], p[|path| + 1], p)
    requires h.station.id !in IdSet(path)
    requires StepOk(g, target, p, |path|)
    ensures Continues(g, target, path, h, p)
  {
    var next := path + [h];
    assert p[..|next|] == next;
    assert p[..|path|] == path by {
      assert p[..|path|] == p[..|next|][..|path|];
      assert next[..|path|] == path;
    }
    assert p[|path|] == p[..|next|][|path|];
  }

  /** Every path that continues `path` with `cur` and follows the rules is enumerated. */
  lemma {:induction false} EnumerateComplete(g: Graph, target: Station, cur: Station, transfer: bool, path: Path, p: Path)
    requires Closed(g) && Resolvable(g, cur) && IdSet(path) <= g.stations.Keys
    requires Continues(g, target, path, Hop(cur, transfer), p)
    ensures p in Enumerate(g, target, cur, transfer, path)
    decreases g.stations.Keys - IdSet(path)
  {
    var h := Hop(cur, transfer);
    var next := path + [h];
    IdSetSnoc(path, h);
    MovesFromTable(g, target, cur, IdSet(next));
    assert p[..|path|] == path;
    assert cur.id !in IdSet(path);
    assert p[..|path| + 1] == next;
    if cur.id == target.id {
      if |p| > |path| + 1 {
        assert false;
      }
      assert p == next;
    } else {
      assert StepOk(g, target, p, |path|);
      var moves := Moves(g, target, cur, IdSet(next));
      var j :| 0 <= j < |moves| && moves[j] == p[|path| + 1];
      assert Continues(g, target, next, moves[j], p) by {
        assert p[..|next|] == next;
      }
      EnumerateComplete(g, target, moves[j].station, moves[j].transfer, next, p);
      EnumerateAllMembers(g, target, moves, next, p);
    }
  }

  /** The enumeration from `start` lists exactly the routes from `start`. */
  lemma EnumerateExactlyRoutes(g: Graph, target: Station, start: Station, p: Path)
    requires Closed(g) && Resolvable(g, start)
    ensures IdSet([]) <= g.stations.Keys
    ensures p in Enumerate(g, target, start, false, []) <==> IsRoute(g, target, start, p)
  {
    assert IdSet([]) == {};
    if p in Enumerate(g, target, start, false, []) {
      EnumerateSound(g, target, start, false, [], p);
    }
    if IsRoute(g, target, start, p) {
      EnumerateComplete(g, target, start, false, [], p);
    }
  }

  // ----- The move rules -----

  /** `s` has a transfer whose station is not visited and lies on `line`. */
  predicate OpenTransferOnto(g: Graph, s: Station, visited: set<int>, line: string)
    requires RefsIn(g, s)
  {
    exists k | 0 <= k < |s.transferIds| ::
      g.stations[s.transferIds[k]].id !in visited && g.stations[s.transferIds[k]].line == line
  }

  /** The open transfers onto `line` are non-empty exactly when `s` has an
      unvisited transfer onto `line`. */
  lemma OpenTransferIsDirect(g: Graph, s: Station, visited: set<int>, line: string)
    requires RefsIn(g, s)
    ensures OpenTransferOnto(g, s, visited, line) <==>
      SplitByLine(OpenTransfers(g, s.transferIds, visited), line, true) != []
  {
    DirectIsOpenTransfer(g, s, visited, line);
    if OpenTransferOnto(g, s, visited, line) {
      var k :| 0 <= k < |s.transferIds| &&
        g.stations[s.transferIds[k]].id !in visited && g.stations[s.transferIds[k]].line == line;
      var open := OpenTransfers(g, s.transferIds, visited);
      OpenTransfersMembers(g, s.transferIds, visited);
      SplitByLineMembers(open, line, true);
      var j :| 0 <= j < |open| && open[j] == g.stations[s.transferIds[k]];
      assert open[j] in SplitByLine(open, line, true);
    }
  }

  /** What the `m`-th move tried from `s` is: a transfer only off the target's
      line, to an unvisited station of `s`'s transfer list; otherwise a step to
      `prev` or `next`; and, while an unvisited transfer onto the target's line
      exists, only such transfers. */
  lemma MoveRules(g: Graph, target: Station, s: Station, visited: set<int>, m: nat)
    requires Closed(g) && RefsIn(g, s) && m < |Moves(g, target, s, visited)|
    ensures var h := Moves(g, target, s, visited)[m];
      && (h.transfer ==> s.line != target.line && h.station.id in s.transferIds && h.station.id !in visited)
      && (!h.transfer ==> s.prev == Some(h.station.id) || s.next == Some(h.station.id))
      && (OpenTransferOnto(g, s, visited, target.line) && s.line != target.line ==>
            h.transfer && h.station.line == target.line)
  {
    if s.line == target.line {
      LineMovesFromTable(g, s);
    } else {
      OpenTransferIsDirect(g, s, visited, target.line);
      var open := OpenTransfers(g, s.transferIds, visited);
      var direct := SplitByLine(open, target.line, true);
      var others := SplitByLine(open, target.line, false);
      if direct != [] {
        TransferMove(g, s, visited, target.line, true, m);
      } else if m < |others| {
        TransferMove(g, s, visited, target.line, false, m);
      } else {
        LineMovesFromTable(g, s);
        assert Moves(g, target, s, visited)[m] == LineMoves(g, s)[m - |others|];
      }
    }
  }

  lemma DirectIsOpenTransfer(g: Graph, s: Station, visited: set<int>, line: string)
    requires RefsIn(g, s)
    ensures SplitByLine(OpenTransfers(g, s.transferIds, visited), line, true) != [] ==>
      OpenTransferOnto(g, s, visited, line)
  {
    var open := OpenTransfers(g, s.transferIds, visited);
    var direct := SplitByLine(open, line, true);
    if direct != [] {
      OpenTransfersMembers(g, s.transferIds, visited);
      SplitByLineMembers(open, line, true);
      assert direct[0] in direct;
      assert direct[0] in open && direct[0].line == line;
      var j :| 0 <= j < |open| && open[j] == direct[0];
      var i :| 0 <= i < |s.transferIds| && open[j] == g.stations[s.transferIds[i]];
      assert g.stations[s.transferIds[i]].id !in visited;
    }
  }

  /** Moves along the line come after every transfer. */
  predicate TransfersFirst(ms: seq<Hop>)
  {
    forall i, j | 0 <= i < j < |ms| :: ms[j].transfer ==> ms[i].transfer
  }

  /** Of two moves along the line, the first goes to `prev` and the second to `next`. */
  predicate PrevBeforeNext(g: Graph, s: Station, ms: seq<Hop>)
    requires RefsIn(g, s)
  {
    forall i, j | 0 <= i < j < |ms| && !ms[i].transfer && !ms[j].transfer ::
      s.prev.Some? && ms[i].station == g.stations[s.prev.value] &&
      s.next.Some? && ms[j].station == g.stations[s.next.value]
  }

  /** Conversely, every move the rules allow is tried: each unvisited transfer
      that is onto the target's line, or any unvisited transfer when none is;
      `prev` and `next` on the target's line or when no transfer onto it is
      open; transfers before moves along the line, `prev` before `next`, and
      the transfers in the order of the transfer list. */
  lemma MovesComplete(g: Graph, target: Station, s: Station, visited: set<int>)
    requires Closed(g) && RefsIn(g, s)
    ensures forall k | 0 <= k < |s.transferIds| ::
      var t := g.stations[s.transferIds[k]];
      s.line != target.line && t.id !in visited &&
      (t.line == target.line || !OpenTransferOnto(g, s, visited, target.line))
      ==> Hop(t, true) in Moves(g, target, s, visited)
    ensures s.line == target.line || !OpenTransferOnto(g, s, visited, target.line) ==>
      && (s.prev.Some? ==> Hop(g.stations[s.prev.value], false) in Moves(g, target, s, visited))
      && (s.next.Some? ==> Hop(g.stations[s.next.value], false) in Moves(g, target, s, visited))
    ensures TransfersFirst(Moves(g, target, s, visited))
    ensures PrevBeforeNext(g, s, Moves(g, target, s, visited))
    ensures exists ks :: TransfersInListOrder(g, target, s, visited, ks)
  {
    MovesFollowTransferList(g, target, s, visited);
    forall k | 0 <= k < |s.transferIds| &&
      s.line != target.line && g.stations[s.transferIds[k]].id !in visited &&
      (g.stations[s.transferIds[k]].line == target.line || !OpenTransferOnto(g, s, visited, target.line))
      ensures Hop(g.stations[s.transferIds[k]], true) in Moves(g, target, s, visited)
    {
      TransferTried(g, target, s, visited, k);
    }
    MovesOrder(g, target, s, visited);
    if s.line != target.line && !OpenTransferOnto(g, s, visited, target.line) {
      OpenTransferIsDirect(g, s, visited, target.line);
      var others := AsTransfers(SplitByLine(OpenTransfers(g, s.transferIds, visited), target.line, false));
      LineMovesTried(g, s, others);
    } else if s.line == target.line {
      LineMovesTried(g, s, []);
      assert [] + LineMoves(g, s) == LineMoves(g, s);
    }
  }

  /** An unvisited transfer the rules allow is among the moves tried. */
  lemma TransferTried(g: Graph, target: Station, s: Station, visited: set<int>, k: nat)
    requires Closed(g) && RefsIn(g, s) && k < |s.transferIds|
    requires s.line != target.line && g.stations[s.transferIds[k]].id !in visited
    requires g.stations[s.transferIds[k]].line == target.line || !OpenTransferOnto(g, s, visited, target.line)
    ensures Hop(g.stations[s.transferIds[k]], true) in Moves(g, target, s, visited)
  {
    var t := g.stations[s.transferIds[k]];
    var open := OpenTransfers(g, s.transferIds, visited);
    OpenTransfersMembers(g, s.transferIds, visited);
    OpenTransferIsDirect(g, s, visited, target.line);
    var onto := t.line == target.line;
    SplitByLineMembers(open, target.line, onto);
    var part := SplitByLine(open, target.line, onto);
    var m :| 0 <= m < |part| && part[m] == t;
    assert AsTransfers(part)[m] == Hop(t, true);
    if onto {
      assert OpenTransferOnto(g, s, visited, target.line);
      assert Moves(g, target, s, visited) == AsTransfers(part);
    } else {
      var ms := Moves(g, target, s, visited);
      assert ms == AsTransfers(part) + LineMoves(g, s);
      assert ms[m] == Hop(t, true);
    }
  }

  /** `prev` and `next`, where present, follow the moves `before`. */
  lemma LineMovesTried(g: Graph, s: Station, before: seq<Hop>)
    requires RefsIn(g, s)
    ensures s.prev.Some? ==> Hop(g.stations[s.prev.value], false) in before + LineMoves(g, s)
    ensures s.next.Some? ==> Hop(g.stations[s.next.value], false) in before + LineMoves(g, s)
  {
    var ms := before + LineMoves(g, s);
    if s.prev.Some? {
      assert ms[|before|] == Hop(g.stations[s.prev.value], false);
    }
    if s.next.Some? {
      assert ms[|ms| - 1] == Hop(g.stations[s.next.value], false);
    }
  }

  /** Transfers come before moves along the line, and `prev` before `next`. */
  lemma MovesOrder(g: Graph, target: Station, s: Station, visited: set<int>)
    requires RefsIn(g, s)
    ensures TransfersFirst(Moves(g, target, s, visited))
    ensures PrevBeforeNext(g, s, Moves(g, target, s, visited))
  {
    var line := LineMoves(g, s);
    if s.line == target.line {
      LineMovesOrdered(g, s);
      assert Moves(g, target, s, visited) == line;
    } else {
      var open := OpenTransfers(g, s.transferIds, visited);
      var direct := SplitByLine(open, target.line, true);
      var others := AsTransfers(SplitByLine(open, target.line, false));
      if direct == [] {
        LineMovesOrdered(g, s);
        assert Moves(g, target, s, visited) == others + line;
        ConcatOrdered(g, s, others, line);
      } else {
        assert Moves(g, target, s, visited) == AsTransfers(direct);
        TransfersOrdered(g, s, direct);
      }
    }
  }

  lemma TransfersOrdered(g: Graph, s: Station, ss: seq<Station>)
    requires RefsIn(g, s)
    ensures TransfersFirst(AsTransfers(ss)) && PrevBeforeNext(g, s, AsTransfers(ss))
  {
    assert forall i | 0 <= i < |AsTransfers(ss)| :: AsTransfers(ss)[i].transfer;
  }

  lemma LineMovesOrdered(g: Graph, s: Station)
    requires RefsIn(g, s)
    ensures forall i | 0 <= i < |LineMoves(g, s)| :: !LineMoves(g, s)[i].transfer
    ensures TransfersFirst(LineMoves(g, s)) && PrevBeforeNext(g, s, LineMoves(g, s))
  {
  }

  lemma ConcatOrdered(g: Graph, s: Station, a: seq<Hop>, b: seq<Hop>)
    requires RefsIn(g, s)
    requires forall i | 0 <= i < |a| :: a[i].transfer
    requires forall i | 0 <= i < |b| :: !b[i].transfer
    requires PrevBeforeNext(g, s, b)
    ensures TransfersFirst(a + b) && PrevBeforeNext(g, s, a + b)
  {
    var ms := a + b;
    forall i, j | 0 <= i < j < |ms| && !ms[i].transfer && !ms[j].transfer
      ensures s.prev.Some? && ms[i].station == g.stations[s.prev.value]
      ensures s.next.Some? && ms[j].station == g.stations[s.next.value]
    {
      assert ms[i] == b[i - |a|] && ms[j] == b[j - |a|];
    }
  }

  /** The `m`-th open transfer on (or off) `line` is an unvisited station of the transfer list. */
  lemma TransferMove(g: Graph, s: Station, visited: set<int>, line: string, onto: bool, m: nat)
    requires Closed(g) && RefsIn(g, s)
    requires m < |SplitByLine(OpenTransfers(g, s.transferIds, visited), line, onto)|
    ensures var part := SplitByLine(OpenTransfers(g, s.transferIds, visited), line, onto);
      && AsTransfers(part)[m] == Hop(part[m], true)
      && part[m].id in s.transferIds && part[m].id !in visited
      && (part[m].line == line) == onto
  {
    var part := SplitByLine(OpenTransfers(g, s.transferIds, visited), line, onto);
    SplitByLineMembers(OpenTransfers(g, s.transferIds, visited), line, onto);
    assert part[m] in part;
    TransferFromTable(g, s, visited, part[m]);
  }

  // ----- Transfers in list order -----

  /** The rules let `dfs` take the transfer at index `k` of `s`'s transfer list:
      `s` is off the target's line, the station is unvisited, and it is onto the
      target's line or no unvisited transfer onto that line exists. */
  ghost predicate TransferAllowed(g: Graph, target: Station, s: Station, visited: set<int>, k: int)
    requires RefsIn(g, s)
  {
    && 0 <= k < |s.transferIds|
    && s.line != target.line
    && g.stations[s.transferIds[k]].id !in visited
    && (g.stations[s.transferIds[k]].line == target.line || !OpenTransferOnto(g, s, visited, target.line))
  }

  /** `ks` lists, in increasing order, exactly the allowed transfer indices; the
      moves begin with the stations of those indices, in that order, and hold no
      other transfer. */
  ghost predicate TransfersInListOrder(g: Graph, target: Station, s: Station, visited: set<int>, ks: seq<int>)
    requires RefsIn(g, s)
  {
    && (forall i, j | 0 <= i < j < |ks| :: ks[i] < ks[j])
    && (forall k | 0 <= k < |s.transferIds| :: k in ks <==> TransferAllowed(g, target, s, visited, k))
    && |ks| <= |Moves(g, target, s, visited)|
    && (forall i | 0 <= i < |ks| ::
          0 <= ks[i] < |s.transferIds| &&
          Moves(g, target, s, visited)[i] == Hop(g.stations[s.transferIds[ks[i]]], true))
    && (forall i | |ks| <= i < |Moves(g, target, s, visited)| :: !Moves(g, target, s, visited)[i].transfer)
  }

  /** Transfers are tried in the order of `s`'s transfer list: the transfer
      moves are the allowed indices of that list, each once, in increasing order. */
  lemma MovesFollowTransferList(g: Graph, target: Station, s: Station, visited: set<int>)
    requires RefsIn(g, s)
    ensures exists ks :: TransfersInListOrder(g, target, s, visited, ks)
  {
    if s.line == target.line {
      LineMovesOrdered(g, s);
      assert Moves(g, target, s, visited) == LineMoves(g, s);
      assert TransfersInListOrder(g, target, s, visited, []);
    } else {
      OpenTransferIsDirect(g, s, visited, target.line);
      var onto := OpenTransferOnto(g, s, visited, target.line);
      var ks := Picked(g, s.transferIds, visited, target.line, onto, 0);
      PickedSplit(g, s.transferIds, visited, target.line, onto, 0);
      assert s.transferIds[0..] == s.transferIds;
      if onto {
        DirectTransfersInOrder(g, target, s, visited, ks);
      } else {
        OtherTransfersInOrder(g, target, s, visited, ks);
      }
    }
  }

  /** With a transfer onto the target's line open, the moves are the picked direct transfers. */
  lemma DirectTransfersInOrder(g: Graph, target: Station, s: Station, visited: set<int>, ks: seq<int>)
    requires RefsIn(g, s) && s.line != target.line && OpenTransferOnto(g, s, visited, target.line)
    requires ks == Picked(g, s.transferIds, visited, target.line, true, 0)
    requires |ks| == |SplitByLine(OpenTransfers(g, s.transferIds, visited), target.line, true)|
    requires forall i | 0 <= i < |ks| ::
      && 0 <= ks[i] < |s.transferIds|
      && SplitByLine(OpenTransfers(g, s.transferIds, visited), target.line, true)[i] == g.stations[s.transferIds[ks[i]]]
    ensures TransfersInListOrder(g, target, s, visited, ks)
  {
    var direct := SplitByLine(OpenTransfers(g, s.transferIds, visited), target.line, true);
    OpenTransferIsDirect(g, s, visited, target.line);
    assert Moves(g, target, s, visited) == AsTransfers(direct);
    forall k | 0 <= k < |s.transferIds| ensures k in ks <==> TransferAllowed(g, target, s, visited, k) {
    }
  }

  /** With no transfer onto the target's line open, the moves begin with the picked other transfers. */
  lemma OtherTransfersInOrder(g: Graph, target: Station, s: Station, visited: set<int>, ks: seq<int>)
    requires RefsIn(g, s) && s.line != target.line && !OpenTransferOnto(g, s, visited, target.line)
    requires ks == Picked(g, s.transferIds, visited, target.line, false, 0)
    requires |ks| == |SplitByLine(OpenTransfers(g, s.transferIds, visited), target.line, false)|
    requires forall i | 0 <= i < |ks| ::
      && 0 <= ks[i] < |s.transferIds|
      && SplitByLine(OpenTransfers(g, s.transferIds, visited), target.line, false)[i] == g.stations[s.transferIds[ks[i]]]
    ensures TransfersInListOrder(g, target, s, visited, ks)
  {
    var open := OpenTransfers(g, s.transferIds, visited);
    var others := AsTransfers(SplitByLine(open, target.line, false));
    OpenTransferIsDirect(g, s, visited, target.line);
    LineMovesOrdered(g, s);
    var ms := Moves(g, target, s, visited);
    assert ms == others + LineMoves(g, s);
    forall i | 0 <= i < |ks| ensures ms[i] == Hop(g.stations[s.transferIds[ks[i]]], true) {
      assert ms[i] == others[i];
    }
    forall i | |ks| <= i < |ms| ensures !ms[i].transfer {
      assert ms[i] == LineMoves(g, s)[i - |ks|];
    }
    forall k | 0 <= k < |s.transferIds| ensures k in ks <==> TransferAllowed(g, target, s, visited, k) {
      if 0 <= k < |s.transferIds| && g.stations[s.transferIds[k]].id !in visited {
        assert g.stations[s.transferIds[k]].line != target.line;
      }
    }
  }

  /** Index `k` of `ids` names an unvisited station on (`onto`) or off `line`. */
  predicate Keeps(g: Graph, ids: seq<int>, visited: set<int>, line: string, onto: bool, k: int)
    requires forall i | 0 <= i < |ids| :: ids[i] in g.stations
  {
    0 <= k < |ids| && g.stations[ids[k]].id !in visited && (g.stations[ids[k]].line == line) == onto
  }

  /** The indices from `from` on that `Keeps` accepts, in increasing order. */
  function Picked(g: Graph, ids: seq<int>, visited: set<int>, line: string, onto: bool, from: nat): (ks: seq<int>)
    requires forall i | 0 <= i < |ids| :: ids[i] in g.stations
    requires from <= |ids|
    ensures forall i, j | 0 <= i < j < |ks| :: ks[i] < ks[j]
    ensures forall k :: k in ks <==> from <= k && Keeps(g, ids, visited, line, onto, k)
    decreases |ids| - from
  {
    if from == |ids| then []
    else
      var rest := Picked(g, ids, visited, line, onto, from + 1);
      var ks := (if Keeps(g, ids, visited, line, onto, from) then [from] else []) + rest;
      assert forall i | 0 <= i < |rest| :: rest[i] in rest;
      ks
  }

  /** The picked indices name, in order, the open transfers of `ids[from..]` on (or off) `line`. */
  lemma {:induction false} PickedSplit(g: Graph, ids: seq<int>, visited: set<int>, line: string, onto: bool, from: nat)
    requires forall i | 0 <= i < |ids| :: ids[i] in g.stations
    requires from <= |ids|
    ensures |Picked(g, ids, visited, line, onto, from)| ==
      |SplitByLine(OpenTransfers(g, ids[from..], visited), line, onto)|
    ensures forall i | 0 <= i < |Picked(g, ids, visited, line, onto, from)| ::
      0 <= Picked(g, ids, visited, line, onto, from)[i] < |ids| &&
      SplitByLine(OpenTransfers(g, ids[from..], visited), line, onto)[i] ==
        g.stations[ids[Picked(g, ids, visited, line, onto, from)[i]]]
    decreases |ids| - from
  {
    if from < |ids| {
      PickedSplit(g, ids, visited, line, onto, from + 1);
      SplitOpenStep(g, ids, visited, line, onto, from);
      ConsNamesStations(g, ids, from, Keeps(g, ids, visited, line, onto, from),
        Picked(g, ids, visited, line, onto, from + 1),
        SplitByLine(OpenTransfers(g, ids[from + 1..], visited), line, onto),
        Picked(g, ids, visited, line, onto, from),
        SplitByLine(OpenTransfers(g, ids[from..], visited), line, onto));
    }
  }

  /** Putting index `k0` in front of `ks` and its station in front of `ss`
      (or neither) keeps `ks` naming the stations of `ss` in order. */
  lemma ConsNamesStations(g: Graph, ids: seq<int>, k0: int, keep: bool,
                          ks: seq<int>, ss: seq<Station>, ks': seq<int>, ss': seq<Station>)
    requires forall i | 0 <= i < |ids| :: ids[i] in g.stations
    requires 0 <= k0 < |ids|
    requires |ks| == |ss|
    requires forall i | 0 <= i < |ks| :: 0 <= ks[i] < |ids| && ss[i] == g.stations[ids[ks[i]]]
    requires ks' == (if keep then [k0] else []) + ks
    requires ss' == (if keep then [g.stations[ids[k0]]] else []) + ss
    ensures |ks'| == |ss'|
    ensures forall i | 0 <= i < |ks'| :: 0 <= ks'[i] < |ids| && ss'[i] == g.stations[ids[ks'[i]]]
  {
    if keep {
      forall i | 1 <= i < |ks'|
        ensures ks'[i] == ks[i - 1] && ss'[i] == ss[i - 1]
      {
      }
    }
  }

  /** One step of the open transfers of `ids[from..]` on (or off) `line`: the
      station at `from` if `Keeps` accepts it, then those of `ids[from + 1..]`. */
  lemma SplitOpenStep(g: Graph, ids: seq<int>, visited: set<int>, line: string, onto: bool, from: nat)
    requires forall i | 0 <= i < |ids| :: ids[i] in g.stations
    requires from < |ids|
    ensures SplitByLine(OpenTransfers(g, ids[from..], visited), line, onto) ==
      (if Keeps(g, ids, visited, line, onto, from) then [g.stations[ids[from]]] else []) +
      SplitByLine(OpenTransfers(g, ids[from + 1..], visited), line, onto)
  {
    var tail := ids[from..];
    assert tail[1..] == ids[from + 1..];
    var st := g.stations[ids[from]];
    var rest := OpenTransfers(g, ids[from + 1..], visited);
    if st.id !in visited {
      assert OpenTransfers(g, tail, visited) == [st] + rest;
      assert ([st] + rest)[1..] == rest;
    } else {
      assert OpenTransfers(g, tail, visited) == rest;
    }
  }

  // ----- What every route looks like -----

  /** The ids of a route are pairwise distinct. */
  lemma RouteIsSimple(g: Graph, target: Station, start: Station, p: Path)
    requires IsRoute(g, target, start, p)
    ensures forall i, j | 0 <= i < j < |p| :: p[i].station.id != p[j].station.id
  {
    forall i, j | 0 <= i < j < |p|
      ensures p[i].station.id != p[j].station.id
    {
      InIdSet(p, i, j);
    }
  }

  /** The signature of a route is its full id list: no id repeats, so no run is thinned. */
  lemma RouteSignatureIsIds(g: Graph, target: Station, start: Station, p: Path)
    requires IsRoute(g, target, start, p)
    ensures CapRuns(PathIds(p)) == PathIds(p)
    ensures DecodeSignature(Signature(p)) == PathIds(p)
  {
    RouteIsSimple(g, target, start, p);
    var ids := PathIds(p);
    assert NoTripleRun(ids) by {
      forall i | 0 <= i < |ids| - 2
        ensures ids[i] != ids[i + 1]
      {
        assert ids[i] == p[i].station.id && ids[i + 1] == p[i + 1].station.id;
      }
    }
    CapRunsKeepsRunFree(ids);
    SignatureRoundTrip(ids);
  }

  /** Two routes share a signature exactly when they visit the same ids in the same order. */
  lemma RouteSignaturesMatchIds(g: Graph, target: Station, start: Station, p: Path, q: Path)
    requires IsRoute(g, target, start, p) && IsRoute(g, target, start, q)
    ensures Signature(p) == Signature(q) <==> PathIds(p) == PathIds(q)
  {
    RouteSignatureIsIds(g, target, start, p);
    RouteSignatureIsIds(g, target, start, q);
    SignatureTextInjective(PathIds(p), PathIds(q));
  }

  /** Step `i` of a route obeys the move rules. */
  lemma RouteStep(g: Graph, target: Station, start: Station, p: Path, i: nat)
    requires Closed(g) && IsRoute(g, target, start, p) && i + 1 < |p|
    ensures RefsIn(g, p[i].station)
    ensures var s := p[i].station; var h := p[i + 1];
      && s.id != target.id
      && h.station.id in g.stations && g.stations[h.station.id] == h.station
      && (h.transfer ==> s.line != target.line && h.station.id in s.transferIds)
      && (!h.transfer ==> s.prev == Some(h.station.id) || s.next == Some(h.station.id))
      && (OpenTransferOnto(g, s, IdSet(p[..i + 1]), target.line) && s.line != target.line ==>
            h.transfer && h.station.line == target.line)
  {
    assert StepOk(g, target, p, i);
    var s := p[i].station;
    var moves := Moves(g, target, s, IdSet(p[..i + 1]));
    var m :| 0 <= m < |moves| && moves[m] == p[i + 1];
    MovesFromTable(g, target, s, IdSet(p[..i + 1]));
    MoveRules(g, target, s, IdSet(p[..i + 1]), m);
  }

  // ----- What `find_route` returns -----

  /** `rs` is what `find_route` returns once it has found `start` and `end`. */
  predicate Returned(g: Graph, startLine: string, startName: string, endLine: string, endName: string,
                     start: Station, end: Station, rs: seq<Path>)
  {
    && Closed(g) && Ends(g, startLine, startName, endLine, endName, start, end)
    && FindRoute(g, startLine, startName, endLine, endName) == Ok(rs)
  }

  /** Every returned path is a route from `start` to `end`, and it is the first
      enumerated route with its id sequence. */
  lemma ResultIsFirstRoute(g: Graph, startLine: string, startName: string, endLine: string, endName: string,
                           start: Station, end: Station, rs: seq<Path>, k: nat)
    returns (j: nat)
    requires Returned(g, startLine, startName, endLine, endName, start, end, rs) && k < |rs|
    ensures Resolvable(g, start) && IdSet([]) <= g.stations.Keys
    ensures IsRoute(g, end, start, rs[k])
    ensures var found := Enumerate(g, end, start, false, []);
      && j < |found| && rs[k] == found[j]
      && forall m | 0 <= m < j :: PathIds(found[m]) != PathIds(found[j])
  {
    FindRouteIsDedupedEnumeration(g, startLine, startName, endLine, endName, start, end);
    assert IdSet([]) == {};
    var found := Enumerate(g, end, start, false, []);
    j := DedupKeepsFirst(found, Signature, {}, k);
    EnumerateExactlyRoutes(g, end, start, found[j]);
    forall m | 0 <= m < j
      ensures PathIds(found[m]) != PathIds(found[j])
    {
      assert Signature(found[m]) != Signature(found[j]);
    }
  }

  /** A returned path starts with `start`, entered without a transfer, visits
      no id twice, and stops at the first station with `end`'s id; when the
      lines hold the table's stations, that station is `end` itself. */
  lemma ResultEndpoints(g: Graph, startLine: string, startName: string, endLine: string, endName: string,
                        start: Station, end: Station, rs: seq<Path>, k: nat)
    requires Returned(g, startLine, startName, endLine, endName, start, end, rs) && k < |rs|
    ensures |rs[k]| > 0 && rs[k][0] == Hop(start, false)
    ensures rs[k][|rs[k]| - 1].station.id == end.id
    ensures forall i | 0 <= i < |rs[k]| - 1 :: rs[k][i].station.id != end.id
    ensures forall i, j | 0 <= i < j < |rs[k]| :: rs[k][i].station.id != rs[k][j].station.id
    ensures Coherent(g) ==> rs[k][|rs[k]| - 1].station == end
  {
    var _ := ResultIsFirstRoute(g, startLine, startName, endLine, endName, start, end, rs, k);
    RouteEndpoints(g, end, start, rs[k]);
    RouteIsSimple(g, end, start, rs[k]);
    if Coherent(g) {
      FoundInTable(g, startLine, startName);
      FoundInTable(g, endLine, endName);
      RouteEndsAtTarget(g, end, start, rs[k]);
    }
  }

  /** The station table's entry for `s`'s id is `s`. */
  predicate InTable(g: Graph, s: Station)
  {
    s.id in g.stations && g.stations[s.id] == s
  }

  lemma FoundInTable(g: Graph, line: string, name: string)
    requires Coherent(g) && line in g.lines && FirstNamed(g.lines[line], name).Some?
    ensures InTable(g, FirstNamed(g.lines[line], name).value)
  {
    var ss := g.lines[line];
    var i :| 0 <= i < |ss| && ss[i] == FirstNamed(ss, name).value;
    assert InTable(g, ss[i]);
  }

  /** A route starts with `start`, entered without a transfer, and stops at
      the first station with the target's id. */
  lemma RouteEndpoints(g: Graph, target: Station, start: Station, p: Path)
    requires IsRoute(g, target, start, p)
    ensures |p| > 0 && p[0] == Hop(start, false)
    ensures p[|p| - 1].station.id == target.id
    ensures forall i | 0 <= i < |p| - 1 :: p[i].station.id != target.id
  {
    forall i | 0 <= i < |p| - 1
      ensures p[i].station.id != target.id
    {
      assert StepOk(g, target, p, i);
    }
  }

  /** When start and target are the table's own stations, a route ends at the target itself. */
  lemma RouteEndsAtTarget(g: Graph, target: Station, start: Station, p: Path)
    requires Closed(g) && IsRoute(g, target, start, p) && InTable(g, start) && InTable(g, target)
    ensures p[|p| - 1].station == target
  {
    if |p| > 1 {
      RouteStep(g, target, start, p, |p| - 2);
    }
  }

  /** Each step of a returned path follows the move rules of `dfs`. */
  lemma ResultSteps(g: Graph, startLine: string, startName: string, endLine: string, endName: string,
                    start: Station, end: Station, rs: seq<Path>, k: nat, i: nat)
    requires Returned(g, startLine, startName, endLine, endName, start, end, rs) && k < |rs| && i + 1 < |rs[k]|
    ensures RefsIn(g, rs[k][i].station)
    ensures var s := rs[k][i].station; var h := rs[k][i + 1];
      && h.station.id in g.stations && g.stations[h.station.id] == h.station
      && (h.transfer ==> s.line != end.line && h.station.id in s.transferIds)
      && (!h.transfer ==> s.prev == Some(h.station.id) || s.next == Some(h.station.id))
      && (OpenTransferOnto(g, s, IdSet(rs[k][..i + 1]), end.line) && s.line != end.line ==>
            h.transfer && h.station.line == end.line)
  {
    var _ := ResultIsFirstRoute(g, startLine, startName, endLine, endName, start, end, rs, k);
    RouteStep(g, end, start, rs[k], i);
  }

  /** No two returned paths share a signature, hence an id sequence. */
  lemma ResultsDistinct(g: Graph, startLine: string, startName: string, endLine: string, endName: string,
                        start: Station, end: Station, rs: seq<Path>)
    requires Returned(g, startLine, startName, endLine, endName, start, end, rs)
    ensures forall i, j | 0 <= i < j < |rs| :: Signature(rs[i]) != Signature(rs[j]) && PathIds(rs[i]) != PathIds(rs[j])
  {
    FindRouteIsDedupedEnumeration(g, startLine, startName, endLine, endName, start, end);
    assert IdSet([]) == {};
    DedupKeysDistinct(Enumerate(g, end, start, false, []), Signature, {});
  }

  /** Every route from `start` to `end` is returned, as the path with its id sequence. */
  lemma EveryRouteReturned(g: Graph, startLine: string, startName: string, endLine: string, endName: string,
                           start: Station, end: Station, rs: seq<Path>, p: Path)
    returns (k: nat)
    requires Returned(g, startLine, startName, endLine, endName, start, end, rs)
    requires IsRoute(g, end, start, p)
    ensures k < |rs| && PathIds(rs[k]) == PathIds(p)
  {
    FindRouteIsDedupedEnumeration(g, startLine, startName, endLine, endName, start, end);
    assert IdSet([]) == {};
    var found := Enumerate(g, end, start, false, []);
    EnumerateExactlyRoutes(g, end, start, p);
    var j :| 0 <= j < |found| && found[j] == p;
    KeysMembers(found, Signature, Signature(p));
    DedupKeepsEveryKey(found, Signature, {});
    KeysMembers(rs, Signature, Signature(p));
    k :| 0 <= k < |rs| && Signature(rs[k]) == Signature(p);
    var _ := ResultIsFirstRoute(g, startLine, startName, endLine, endName, start, end, rs, k);
    RouteSignaturesMatchIds(g, end, start, rs[k], p);
  }
}
