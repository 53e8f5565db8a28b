/** `SubwaySystem.find_route`: locate the two end stations by line and name, then
    enumerate routes between them depth first, with a fixed preference between
    riding on and changing lines, keeping one route per signature. */
module RouteSearch {
  import opened Wrappers
  import opened Network
  import opened PathSignature

  /** One element of a route: the station reached and whether it was reached by
      changing lines (`is_transfer`). */
  datatype Hop = Hop(station: Station, transfer: bool)

  type Path = seq<Hop>

  /** What `dfs` keeps between calls: the ids on the current path (`visited`),
      the current path, the routes accepted so far (`all_paths`) and their
      signatures (`path_signatures`). */
  datatype State = State(visited: set<int>, path: Path, results: seq<Path>, sigs: set<string>)

  /** `find_route` indexes `self.lines` with the given line names and so raises
      `KeyError` for a line the network does not have. */
  datatype RouteError = UnknownLine(line: string)

  /** The search can start from `s`: its id is a key of the table and its
      references resolve. */
  predicate Resolvable(g: Graph, s: Station)
  {
    s.id in g.stations && RefsIn(g, s)
  }

  function PathIds(p: Path): seq<int>
  {
    seq(|p|, i requires 0 <= i < |p| => p[i].station.id)
  }

  /** `get_path_signature`. */
  function Signature(p: Path): (sig: string)
    ensures DecodeSignature(sig) == CapRuns(PathIds(p))
  {
    SignatureText(PathIds(p))
  }

  /** The first station of a line with the given name, if any (the `next(...)`
      generator expressions that find `start` and `end`). */
  function FirstNamed(ss: seq<Station>, name: string): (r: Option<Station>)
    ensures r.None? <==> forall i | 0 <= i < |ss| :: ss[i].name != name
    ensures r.Some? ==> exists i | 0 <= i < |ss| ::
      && ss[i] == r.value
      && r.value.name == name
      && forall j | 0 <= j < i :: ss[j].name != name
  {
    if ss == [] then None
    else if ss[0].name == name then Some(ss[0])
    else
      var r := FirstNamed(ss[1..], name);
      assert forall i | 1 <= i < |ss| :: ss[i] == ss[1..][i - 1];
      r
  }

  /** `[current.prev, current.next]` without the missing ones, as moves along
      the line. */
  function LineMoves(g: Graph, s: Station): seq<Hop>
    requires RefsIn(g, s)
  {
    (if s.prev.Some? then [Hop(g.stations[s.prev.value], false)] else [])
    + (if s.next.Some? then [Hop(g.stations[s.next.value], false)] else [])
  }

  /** The stations of the transfer ids whose station is not visited yet, in list order. */
  function OpenTransfers(g: Graph, ids: seq<int>, visited: set<int>): seq<Station>
    requires forall i | 0 <= i < |ids| :: ids[i] in g.stations
  {
    if ids == [] then []
    else
      var s := g.stations[ids[0]];
      (if s.id !in visited then [s] else []) + OpenTransfers(g, ids[1..], visited)
  }

  /** The stations of `ss` on line `line` (`onto` true) or on another line (`onto` false). */
  function SplitByLine(ss: seq<Station>, line: string, onto: bool): seq<Station>
  {
    if ss == [] then []
    else (if (ss[0].line == line) == onto then [ss[0]] else []) + SplitByLine(ss[1..], line, onto)
  }

  function AsTransfers(ss: seq<Station>): seq<Hop>
  {
    seq(|ss|, i requires 0 <= i < |ss| => Hop(ss[i], true))
  }

  /** The moves `dfs` tries, in order, from a station `s` that is not the target:
      on the target's line only along the line; elsewhere only the open
      transfers onto the target's line if there are any, and otherwise the open
      transfers to other lines followed by the moves along the line. */
  function Moves(g: Graph, target: Station, s: Station, visited: set<int>): (ms: seq<Hop>)
    requires RefsIn(g, s)
    ensures forall i | 0 <= i < |ms| && ms[i].transfer ::
      s.line != target.line && ms[i].station.id !in visited
    ensures forall i | 0 <= i < |ms| && !ms[i].transfer ::
      (s.prev.Some? && ms[i].station == g.stations[s.prev.value]) ||
      (s.next.Some? && ms[i].station == g.stations[s.next.value])
  {
    if s.line == target.line then LineMoves(g, s)
    else
      var open := OpenTransfers(g, s.transferIds, visited);
      OpenTransfersUnvisited(g, s.transferIds, visited, target.line, true);
      OpenTransfersUnvisited(g, s.transferIds, visited, target.line, false);
      LineMovesShape(g, s);
      var direct := SplitByLine(open, target.line, true);
      var others := AsTransfers(SplitByLine(open, target.line, false));
      if direct != [] then
        AsTransfers(direct)
      else
        assert forall i | |others| <= i < |others + LineMoves(g, s)| ::
          (others + LineMoves(g, s))[i] == LineMoves(g, s)[i - |others|];
        others + LineMoves(g, s)
  }

  /** Every open transfer on (or off) a line goes to an unvisited station. */
  lemma OpenTransfersUnvisited(g: Graph, ids: seq<int>, visited: set<int>, line: string, onto: bool)
    requires forall i | 0 <= i < |ids| :: ids[i] in g.stations
    ensures forall i | 0 <= i < |SplitByLine(OpenTransfers(g, ids, visited), line, onto)| ::
      SplitByLine(OpenTransfers(g, ids, visited), line, onto)[i].id !in visited
  {
    var open := OpenTransfers(g, ids, visited);
    var part := SplitByLine(open, line, onto);
    OpenTransfersMembers(g, ids, visited);
    SplitByLineMembers(open, line, onto);
    forall i | 0 <= i < |part|
      ensures part[i].id !in visited
    {
      assert part[i] in part;
      var j :| 0 <= j < |open| && open[j] == part[i];
    }
  }

  /** The moves along the line go to `prev` or `next` and are not transfers. */
  lemma LineMovesShape(g: Graph, s: Station)
    requires RefsIn(g, s)
    ensures forall i | 0 <= i < |LineMoves(g, s)| ::
      var h := LineMoves(g, s)[i];
      !h.transfer &&
      ((s.prev.Some? && h.station == g.stations[s.prev.value]) ||
       (s.next.Some? && h.station == g.stations[s.next.value]))
  {
    var back: seq<Hop> := if s.prev.Some? then [Hop(g.stations[s.prev.value], false)] else [];
    var ahead: seq<Hop> := if s.next.Some? then [Hop(g.stations[s.next.value], false)] else [];
    assert LineMoves(g, s) == back + ahead;
    forall i | 0 <= i < |back + ahead|
      ensures !(back + ahead)[i].transfer
      ensures (s.prev.Some? && (back + ahead)[i].station == g.stations[s.prev.value]) ||
              (s.next.Some? && (back + ahead)[i].station == g.stations[s.next.value])
    {
      if i < |back| {
        assert (back + ahead)[i] == back[i];
      } else {
        assert (back + ahead)[i] == ahead[i - |back|];
      }
    }
  }

  /** The open transfers are exactly the unvisited stations of the transfer ids. */
  lemma {:induction false} OpenTransfersMembers(g: Graph, ids: seq<int>, visited: set<int>)
    requires forall i | 0 <= i < |ids| :: ids[i] in g.stations
    ensures forall j | 0 <= j < |OpenTransfers(g, ids, visited)| ::
      var s := OpenTransfers(g, ids, visited)[j];
      s.id !in visited && exists i | 0 <= i < |ids| :: s == g.stations[ids[i]]
    ensures forall i | 0 <= i < |ids| && g.stations[ids[i]].id !in visited ::
      g.stations[ids[i]] in OpenTransfers(g, ids, visited)
  {
    if ids != [] {
      var rest := OpenTransfers(g, ids[1..], visited);
      OpenTransfersMembers(g, ids[1..], visited);
      var out := OpenTransfers(g, ids, visited);
      var head := if g.stations[ids[0]].id !in visited then [g.stations[ids[0]]] else [];
      assert out == head + rest;
      forall j | 0 <= j < |out|
        ensures out[j].id !in visited && exists i | 0 <= i < |ids| :: out[j] == g.stations[ids[i]]
      {
        if j >= |head| {
          assert out[j] == rest[j - |head|];
          var i :| 0 <= i < |ids[1..]| && rest[j - |head|] == g.stations[ids[1..][i]];
          assert out[j] == g.stations[ids[i + 1]];
        } else {
          assert out[j] == g.stations[ids[0]];
        }
      }
      forall i | 0 <= i < |ids| && g.stations[ids[i]].id !in visited
        ensures g.stations[ids[i]] in out
      {
        if i > 0 {
          assert ids[i] == ids[1..][i - 1];
        }
      }
    }
  }

  /** The split keeps, in order, the stations on (or off) the line. */
  lemma {:induction false} SplitByLineMembers(ss: seq<Station>, line: string, onto: bool)
    ensures forall s | s in SplitByLine(ss, line, onto) :: s in ss && (s.line == line) == onto
    ensures forall i | 0 <= i < |ss| && (ss[i].line == line) == onto :: ss[i] in SplitByLine(ss, line, onto)
  {
    if ss != [] {
      SplitByLineMembers(ss[1..], line, onto);
      forall i | 0 <= i < |ss| && (ss[i].line == line) == onto
        ensures ss[i] in SplitByLine(ss, line, onto)
      {
        if i > 0 {
          assert ss[i] == ss[1..][i - 1];
        }
      }
    }
  }

  lemma LineMovesFromTable(g: Graph, s: Station)
    requires Closed(g) && RefsIn(g, s)
    ensures forall i | 0 <= i < |LineMoves(g, s)| ::
      var h := LineMoves(g, s)[i];
      && !h.transfer
      && (s.prev == Some(h.station.id) || s.next == Some(h.station.id))
      && h.station.id in g.stations && g.stations[h.station.id] == h.station
  {
    var moves := LineMoves(g, s);
    forall i | 0 <= i < |moves|
      ensures && !moves[i].transfer
              && (s.prev == Some(moves[i].station.id) || s.next == Some(moves[i].station.id))
              && moves[i].station.id in g.stations && g.stations[moves[i].station.id] == moves[i].station
    {
      if s.prev.Some? && i == 0 {
        assert moves[i].station == g.stations[s.prev.value];
        assert g.stations[s.prev.value].id == s.prev.value;
      } else {
        assert moves[i].station == g.stations[s.next.value];
        assert g.stations[s.next.value].id == s.next.value;
      }
    }
  }

  lemma TransferFromTable(g: Graph, s: Station, visited: set<int>, st: Station)
    requires Closed(g) && RefsIn(g, s)
    requires st in OpenTransfers(g, s.transferIds, visited)
    ensures st.id !in visited && st.id in s.transferIds
    ensures st.id in g.stations && g.stations[st.id] == st
  {
    OpenTransfersMembers(g, s.transferIds, visited);
    var open := OpenTransfers(g, s.transferIds, visited);
    var j :| 0 <= j < |open| && open[j] == st;
    var k :| 0 <= k < |s.transferIds| && st == g.stations[s.transferIds[k]];
    assert s.transferIds[k] in g.stations;
    assert g.stations[s.transferIds[k]].id == s.transferIds[k];
    assert s.transferIds[k] in s.transferIds;
  }

  /** Every move leads to a station of the table. */
  lemma MovesFromTable(g: Graph, target: Station, s: Station, visited: set<int>)
    requires Closed(g) && RefsIn(g, s)
    ensures forall i | 0 <= i < |Moves(g, target, s, visited)| ::
      var h := Moves(g, target, s, visited)[i];
      h.station.id in g.stations && g.stations[h.station.id] == h.station && Resolvable(g, h.station)
  {
    var moves := Moves(g, target, s, visited);
    LineMovesFromTable(g, s);
    forall i | 0 <= i < |moves|
      ensures moves[i].station.id in g.stations && g.stations[moves[i].station.id] == moves[i].station
    {
      if s.line != target.line {
        var open := OpenTransfers(g, s.transferIds, visited);
        SplitByLineMembers(open, target.line, true);
        SplitByLineMembers(open, target.line, false);
        var direct := SplitByLine(open, target.line, true);
        var others := SplitByLine(open, target.line, false);
        if direct != [] {
          assert moves[i].station == direct[i];
          TransferFromTable(g, s, visited, direct[i]);
        } else if i < |others| {
          assert moves[i].station == others[i];
          TransferFromTable(g, s, visited, others[i]);
        } else {
          assert moves[i] == LineMoves(g, s)[i - |others|];
        }
      }
    }
  }

  /** The acceptance step of `dfs`: at the target, record a copy of the current
      path unless a path with the same signature was recorded before. */
  function Accept(st: State): (r: State)
    ensures r.visited == st.visited && r.path == st.path
    ensures r.sigs == st.sigs + {Signature(st.path)}
    ensures r.results == st.results || r.results == st.results + [st.path]
    ensures r.results != st.results <==> Signature(st.path) !in st.sigs
  {
    var sig := Signature(st.path);
    if sig in st.sigs then st
    else State(st.visited, st.path, st.results + [st.path], st.sigs + {sig})
  }

  /** `dfs(current, target, is_transfer)`: returns to the caller with `visited`
      and the current path as it found them, having recorded every new route
      through `cur`. */
  function Dfs(g: Graph, target: Station, cur: Station, transfer: bool, st: State): (r: State)
    requires Closed(g) && Resolvable(g, cur) && st.visited <= g.stations.Keys
    ensures r.visited == st.visited && r.path == st.path
    ensures st.results <= r.results && st.sigs <= r.sigs
    decreases g.stations.Keys - st.visited, 0
  {
    if cur.id in st.visited then st
    else
      var entered := State(st.visited + {cur.id}, st.path + [Hop(cur, transfer)], st.results, st.sigs);
      MovesFromTable(g, target, cur, entered.visited);
      var done :=
        if cur.id == target.id then Accept(entered)
        else Explore(g, target, Moves(g, target, cur, entered.visited), entered);
      State(done.visited - {cur.id}, done.path[..|done.path| - 1], done.results, done.sigs)
  }

  /** The `for` loops of `dfs`: one call per move, in order, each starting from
      the state the previous one returned. */
  function Explore(g: Graph, target: Station, moves: seq<Hop>, st: State): (r: State)
    requires Closed(g) && st.visited <= g.stations.Keys
    requires forall i | 0 <= i < |moves| :: Resolvable(g, moves[i].station)
    ensures r.visited == st.visited && r.path == st.path
    ensures st.results <= r.results && st.sigs <= r.sigs
    decreases g.stations.Keys - st.visited, 1, |moves|
  {
    if moves == [] then st
    else
      var next := Dfs(g, target, moves[0].station, moves[0].transfer, st);
      Explore(g, target, moves[1..], next)
  }

  /** The search state before the first call of `dfs`. */
  function Fresh(): State
  {
    State({}, [], [], {})
  }

  /** `find_route(start_line, start_station, end_line, end_station)`. */
  function FindRoute(g: Graph, startLine: string, startName: string, endLine: string, endName: string)
    : (r: Result<seq<Path>, RouteError>)
    requires Closed(g)
    ensures startLine !in g.lines ==> r == Err(UnknownLine(startLine))
    ensures startLine in g.lines && endLine !in g.lines ==> r == Err(UnknownLine(endLine))
    ensures r.Err? <==> startLine !in g.lines || endLine !in g.lines
    ensures startLine in g.lines && endLine in g.lines &&
            ((forall i | 0 <= i < |g.lines[startLine]| :: g.lines[startLine][i].name != startName) ||
             (forall i | 0 <= i < |g.lines[endLine]| :: g.lines[endLine][i].name != endName))
            ==> r == Ok([])
  {
    if startLine !in g.lines then Err(UnknownLine(startLine))
    else
      var start := FirstNamed(g.lines[startLine], startName);
      if endLine !in g.lines then Err(UnknownLine(endLine))
      else
        var end := FirstNamed(g.lines[endLine], endName);
        if start.None? || end.None? then Ok([])
        else
          assert Resolvable(g, start.value);
          Ok(Dfs(g, end.value, start.value, false, Fresh()).results)
  }
}
