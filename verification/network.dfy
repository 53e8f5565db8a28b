/** The station network of `SubwaySystem`: the `Station` records, the id-indexed
    station table and the per-line station lists, built from already-parsed rows
    of the station table as `load_from_csv` does. */
module Network {
  import opened Wrappers

  /** One parsed row of the station table: id, line name, station name and the
      ids of the stations one can change to at this station. */
  datatype Record = Record(id: int, line: string, name: string, transferIds: seq<int>)

  /** A station of one line. `prev` and `next` hold the ids of its neighbours on
      the line; the first station has no `prev`, the last no `next`. */
  datatype Station = Station(
    id: int,
    line: string,
    name: string,
    transferIds: seq<int>,
    prev: Option<int>,
    next: Option<int>)

  /** `SubwaySystem`: every station by id, and every line's stations in input order. */
  datatype Graph = Graph(stations: map<int, Station>, lines: map<string, seq<Station>>)

  function AsRecord(s: Station): Record
  {
    Record(s.id, s.line, s.name, s.transferIds)
  }

  function Records(ss: seq<Station>): seq<Record>
  {
    seq(|ss|, i requires 0 <= i < |ss| => AsRecord(ss[i]))
  }

  // ----- Properties of the input rows -----

  function Ids(rows: seq<Record>): set<int>
  {
    IdsUpTo(rows, |rows|)
  }

  function LineNames(rows: seq<Record>): set<string>
  {
    set k | 0 <= k < |rows| :: rows[k].line
  }

  ghost predicate UniqueIds(rows: seq<Record>)
  {
    forall i, j | 0 <= i < j < |rows| :: rows[i].id != rows[j].id
  }

  /** Every transfer id names some row. */
  predicate TransfersResolve(rows: seq<Record>)
  {
    forall k, i | 0 <= k < |rows| && 0 <= i < |rows[k].transferIds| :: rows[k].transferIds[i] in Ids(rows)
  }

  /** No later row among the first `n` repeats the id of row `k`. */
  ghost predicate LastWithId(rows: seq<Record>, n: nat, k: nat)
    requires k < n <= |rows|
  {
    forall j | k < j < n :: rows[j].id != rows[k].id
  }

  /** The rows of line `line`, in input order. */
  function RowsOn(rows: seq<Record>, line: string): seq<Record>
  {
    if rows == [] then []
    else RowsOn(rows[..|rows| - 1], line) + (if rows[|rows| - 1].line == line then [rows[|rows| - 1]] else [])
  }

  // ----- Properties of a network -----

  /** Every id the station can lead to is a key of the station table. */
  predicate RefsIn(g: Graph, s: Station)
  {
    && (s.prev.Some? ==> s.prev.value in g.stations)
    && (s.next.Some? ==> s.next.value in g.stations)
    && (forall i | 0 <= i < |s.transferIds| :: s.transferIds[i] in g.stations)
  }

  /** The table is keyed by station id and no reference leads outside it, so that
      the lookups of the route search cannot fail. */
  predicate Closed(g: Graph)
  {
    && (forall x | x in g.stations :: g.stations[x].id == x && RefsIn(g, g.stations[x]))
    && (forall line, i | line in g.lines && 0 <= i < |g.lines[line]| ::
          g.lines[line][i].id in g.stations && RefsIn(g, g.lines[line][i]))
  }

  /** Every station listed on a line is the one the table holds for its id. */
  predicate Coherent(g: Graph)
  {
    forall line, i | line in g.lines && 0 <= i < |g.lines[line]| ::
      g.lines[line][i].id in g.stations && g.stations[g.lines[line][i].id] == g.lines[line][i]
  }

  /** `next` and `prev` in the station table are inverse to each other. */
  predicate SymmetricLinks(g: Graph)
  {
    forall x | x in g.stations ::
      && (g.stations[x].next.Some? ==>
            g.stations[x].next.value in g.stations && g.stations[g.stations[x].next.value].prev == Some(x))
      && (g.stations[x].prev.Some? ==>
            g.stations[x].prev.value in g.stations && g.stations[g.stations[x].prev.value].next == Some(x))
  }

  // ----- Construction -----

  /** Row indices of the first `n` rows grouped by line name, each group in
      input order: a new line gets an empty list, then the row is appended. */
  function Grouped(rows: seq<Record>, n: nat): (m: map<string, seq<nat>>)
    requires n <= |rows|
    ensures forall line, i | line in m && 0 <= i < |m[line]| :: m[line][i] < n && rows[m[line][i]].line == line
    ensures forall line, i, j | line in m && 0 <= i < j < |m[line]| :: m[line][i] < m[line][j]
    ensures forall line | line in m :: m[line] != []
  {
    if n == 0 then map[]
    else
      var m := Grouped(rows, n - 1);
      var line := rows[n - 1].line;
      m[line := (if line in m then m[line] else []) + [n - 1]]
  }

  /** The index row `k` takes in its line's list: the list's length just before
      the row is appended to it. */
  function Position(rows: seq<Record>, k: nat): nat
    requires k < |rows|
  {
    var m := Grouped(rows, k);
    if rows[k].line in m then |m[rows[k].line]| else 0
  }

  /** The station objects of the rows `ls` of one line, each linked to its
      neighbours in the list. */
  function LinkLine(rows: seq<Record>, ls: seq<nat>): seq<Station>
    requires forall i | 0 <= i < |ls| :: ls[i] < |rows|
  {
    seq(|ls|, i requires 0 <= i < |ls| =>
      var r := rows[ls[i]];
      Station(r.id, r.line, r.name, r.transferIds,
              if i > 0 then Some(rows[ls[i - 1]].id) else None,
              if i < |ls| - 1 then Some(rows[ls[i + 1]].id) else None))
  }

  function BuildLines(rows: seq<Record>): map<string, seq<Station>>
  {
    var m := Grouped(rows, |rows|);
    map line | line in m :: LinkLine(rows, m[line])
  }

  /** The station object made for row `k`, after linking: the one at the row's
      position in its line's list. */
  function ObjectOf(rows: seq<Record>, k: nat): Station
    requires k < |rows|
  {
    GroupedPosition(rows, k);
    BuildLines(rows)[rows[k].line][Position(rows, k)]
  }

  /** The station table after the first `n` rows: a later row with the same id
      replaces the earlier one. */
  function StationsUpTo(rows: seq<Record>, objs: seq<Station>, n: nat): map<int, Station>
    requires n <= |rows| == |objs|
  {
    if n == 0 then map[]
    else StationsUpTo(rows, objs, n - 1)[rows[n - 1].id := objs[n - 1]]
  }

  /** The station object of every row, in input order. */
  function Objects(rows: seq<Record>): seq<Station>
  {
    seq(|rows|, k requires 0 <= k < |rows| => ObjectOf(rows, k))
  }

  /** The ids among the first `n` rows. */
  function IdsUpTo(rows: seq<Record>, n: nat): set<int>
    requires n <= |rows|
  {
    set k | 0 <= k < n :: rows[k].id
  }

  /** After `n` rows the table has one entry per id seen, and it is the object of
      the last of those rows with that id. */
  lemma StationsUpToLastWins(rows: seq<Record>, objs: seq<Station>, n: nat)
    requires n <= |rows| == |objs|
    ensures StationsUpTo(rows, objs, n).Keys == IdsUpTo(rows, n)
    ensures forall k | 0 <= k < n && LastWithId(rows, n, k) :: StationsUpTo(rows, objs, n)[rows[k].id] == objs[k]
  {
    StationsUpToKeys(rows, objs, n);
    forall k | 0 <= k < n && LastWithId(rows, n, k)
      ensures StationsUpTo(rows, objs, n)[rows[k].id] == objs[k]
    {
      StationsUpToAt(rows, objs, n, k);
    }
  }

  /** No later row overwrites the entry of row `k`. */
  lemma {:induction false} StationsUpToAt(rows: seq<Record>, objs: seq<Station>, n: nat, k: nat)
    requires k < n <= |rows| == |objs| && LastWithId(rows, n, k)
    ensures rows[k].id in StationsUpTo(rows, objs, n) && StationsUpTo(rows, objs, n)[rows[k].id] == objs[k]
  {
    if k < n - 1 {
      assert LastWithId(rows, n - 1, k);
      StationsUpToAt(rows, objs, n - 1, k);
      assert rows[k].id != rows[n - 1].id;
    }
  }

  lemma {:induction false} StationsUpToKeys(rows: seq<Record>, objs: seq<Station>, n: nat)
    requires n <= |rows| == |objs|
    ensures StationsUpTo(rows, objs, n).Keys == IdsUpTo(rows, n)
  {
    if n > 0 {
      StationsUpToKeys(rows, objs, n - 1);
      IdsUpToStep(rows, n);
    }
  }

  lemma IdsUpToStep(rows: seq<Record>, n: nat)
    requires 0 < n <= |rows|
    ensures IdsUpTo(rows, n) == IdsUpTo(rows, n - 1) + {rows[n - 1].id}
  {
    forall x | x in IdsUpTo(rows, n)
      ensures x in IdsUpTo(rows, n - 1) + {rows[n - 1].id}
    {
      var k :| 0 <= k < n && rows[k].id == x;
    }
  }

  /** The last of the first `n` rows that carries id `x`. */
  lemma {:induction false} LastRowOf(rows: seq<Record>, n: nat, x: int) returns (k: nat)
    requires n <= |rows| && x in IdsUpTo(rows, n)
    ensures k < n && rows[k].id == x && LastWithId(rows, n, k)
  {
    if rows[n - 1].id == x {
      k := n - 1;
    } else {
      assert x in IdsUpTo(rows, n - 1);
      k := LastRowOf(rows, n - 1, x);
    }
  }

  /** `load_from_csv` from the parsed rows on: the station table and the linked lines. */
  function Build(rows: seq<Record>): Graph
  {
    Graph(StationsUpTo(rows, Objects(rows), |rows|), BuildLines(rows))
  }

  // ----- Facts about the grouping -----

  lemma {:induction false} GroupedGrows(rows: seq<Record>, n: nat, m: nat)
    requires n <= m <= |rows|
    ensures forall line | line in Grouped(rows, n) ::
      line in Grouped(rows, m) && Grouped(rows, n)[line] <= Grouped(rows, m)[line]
    decreases m
  {
    if n < m {
      GroupedGrows(rows, n, m - 1);
    }
  }

  lemma GroupedPosition(rows: seq<Record>, k: nat)
    requires k < |rows|
    ensures rows[k].line in Grouped(rows, |rows|)
    ensures Position(rows, k) < |Grouped(rows, |rows|)[rows[k].line]|
    ensures Grouped(rows, |rows|)[rows[k].line][Position(rows, k)] == k
  {
    GroupedGrows(rows, k + 1, |rows|);
  }

  lemma PositionOfListed(rows: seq<Record>, line: string, j: nat)
    requires line in Grouped(rows, |rows|) && j < |Grouped(rows, |rows|)[line]|
    ensures Position(rows, Grouped(rows, |rows|)[line][j]) == j
  {
    var ls := Grouped(rows, |rows|)[line];
    GroupedPosition(rows, ls[j]);
  }

  lemma {:induction false} GroupedKeys(rows: seq<Record>, n: nat)
    requires n <= |rows|
    ensures Grouped(rows, n).Keys == LineNames(rows[..n])
  {
    if n > 0 {
      GroupedKeys(rows, n - 1);
      GroupedKeysStep(rows, n);
      LineNamesPrefixStep(rows, n);
    }
  }

  lemma LineNamesPrefixStep(rows: seq<Record>, n: nat)
    requires 0 < n <= |rows|
    ensures LineNames(rows[..n]) == LineNames(rows[..n - 1]) + {rows[n - 1].line}
  {
    assert rows[..n] == rows[..n - 1] + [rows[n - 1]];
    LineNamesSnoc(rows[..n - 1], rows[n - 1]);
  }

  lemma GroupedKeysStep(rows: seq<Record>, n: nat)
    requires 0 < n <= |rows|
    ensures Grouped(rows, n).Keys == Grouped(rows, n - 1).Keys + {rows[n - 1].line}
  {
    var m := Grouped(rows, n - 1);
    var line := rows[n - 1].line;
    assert Grouped(rows, n) == m[line := (if line in m then m[line] else []) + [n - 1]];
  }

  lemma LineNamesSnoc(rs: seq<Record>, r: Record)
    ensures LineNames(rs + [r]) == LineNames(rs) + {r.line}
  {
    var all := rs + [r];
    assert all[|rs|] == r;
    forall x | x in LineNames(rs)
      ensures x in LineNames(all)
    {
      var k :| 0 <= k < |rs| && rs[k].line == x;
      assert all[k] == rs[k];
    }
  }

  function RowsAt(rows: seq<Record>, ls: seq<nat>): seq<Record>
    requires forall i | 0 <= i < |ls| :: ls[i] < |rows|
  {
    seq(|ls|, i requires 0 <= i < |ls| => rows[ls[i]])
  }

  lemma {:induction false} GroupedRows(rows: seq<Record>, n: nat, line: string)
    requires n <= |rows|
    ensures line in Grouped(rows, n) ==> RowsAt(rows, Grouped(rows, n)[line]) == RowsOn(rows[..n], line)
    ensures line !in Grouped(rows, n) ==> RowsOn(rows[..n], line) == []
  {
    if n > 0 {
      GroupedRows(rows, n - 1, line);
      assert rows[..n][..n - 1] == rows[..n - 1];
    }
  }

  // ----- What construction guarantees -----

  /** Each line lists exactly the rows of that line, in input order. */
  lemma BuildGroupsLines(rows: seq<Record>)
    ensures Build(rows).lines.Keys == LineNames(rows)
    ensures forall line | line in Build(rows).lines :: Records(Build(rows).lines[line]) == RowsOn(rows, line)
  {
    GroupedKeys(rows, |rows|);
    assert rows[..|rows|] == rows;
    forall line | line in Build(rows).lines
      ensures Records(Build(rows).lines[line]) == RowsOn(rows, line)
    {
      GroupedRows(rows, |rows|, line);
    }
  }

  /** Consecutive stations of a line are linked both ways; the first has no
      `prev` and the last no `next`. */
  lemma BuildLinksLines(rows: seq<Record>)
    ensures forall line, i | line in Build(rows).lines && 0 <= i < |Build(rows).lines[line]| - 1 ::
      var ss := Build(rows).lines[line];
      ss[i].next == Some(ss[i + 1].id) && ss[i + 1].prev == Some(ss[i].id)
    ensures forall line | line in Build(rows).lines ::
      var ss := Build(rows).lines[line];
      ss[0].prev == None && ss[|ss| - 1].next == None
  {
    var lines := BuildLines(rows);
    var G := Grouped(rows, |rows|);
    forall line | line in lines
      ensures var ss := lines[line];
        && (forall i | 0 <= i < |ss| - 1 :: ss[i].next == Some(ss[i + 1].id) && ss[i + 1].prev == Some(ss[i].id))
        && ss[0].prev == None && ss[|ss| - 1].next == None
    {
      LinkLineLinks(rows, G[line]);
    }
  }

  lemma LinkLineLinks(rows: seq<Record>, ls: seq<nat>)
    requires ls != [] && forall i | 0 <= i < |ls| :: ls[i] < |rows|
    ensures var ss := LinkLine(rows, ls);
      && (forall i | 0 <= i < |ss| - 1 :: ss[i].next == Some(ss[i + 1].id) && ss[i + 1].prev == Some(ss[i].id))
      && ss[0].prev == None && ss[|ss| - 1].next == None
  {
  }

  /** The table holds one station per id, made from the last row with that id:
      it is the very station object that row put in its line's list, at the
      index given by the rows of that line before it, with its links. */
  lemma BuildKeepsLastRow(rows: seq<Record>)
    ensures Build(rows).stations.Keys == Ids(rows)
    ensures forall k | 0 <= k < |rows| && LastWithId(rows, |rows|, k) ::
      AsRecord(Build(rows).stations[rows[k].id]) == rows[k]
    ensures forall k | 0 <= k < |rows| && LastWithId(rows, |rows|, k) ::
      var line := rows[k].line;
      && line in Build(rows).lines
      && |RowsOn(rows[..k], line)| < |Build(rows).lines[line]|
      && Build(rows).stations[rows[k].id] == Build(rows).lines[line][|RowsOn(rows[..k], line)|]
  {
    StationsUpToKeys(rows, Objects(rows), |rows|);
    forall k | 0 <= k < |rows| && LastWithId(rows, |rows|, k)
      ensures AsRecord(Build(rows).stations[rows[k].id]) == rows[k]
      ensures var line := rows[k].line;
        && line in Build(rows).lines
        && |RowsOn(rows[..k], line)| < |Build(rows).lines[line]|
        && Build(rows).stations[rows[k].id] == Build(rows).lines[line][|RowsOn(rows[..k], line)|]
    {
      LastRowEntry(rows, k);
    }
  }

  /** The table entry of a last row is its object in its line's list. */
  lemma LastRowEntry(rows: seq<Record>, k: nat)
    requires k < |rows| && LastWithId(rows, |rows|, k)
    ensures var line := rows[k].line;
      && line in BuildLines(rows)
      && |RowsOn(rows[..k], line)| < |BuildLines(rows)[line]|
      && rows[k].id in Build(rows).stations
      && Build(rows).stations[rows[k].id] == BuildLines(rows)[line][|RowsOn(rows[..k], line)|]
      && AsRecord(Build(rows).stations[rows[k].id]) == rows[k]
  {
    StationsUpToAt(rows, Objects(rows), |rows|, k);
    GroupedPosition(rows, k);
    PositionCountsEarlier(rows, k);
    assert Objects(rows)[k] == ObjectOf(rows, k);
  }

  /** A row's index in its line's list is the number of earlier rows of that line. */
  lemma PositionCountsEarlier(rows: seq<Record>, k: nat)
    requires k < |rows|
    ensures Position(rows, k) == |RowsOn(rows[..k], rows[k].line)|
  {
    GroupedRows(rows, k, rows[k].line);
  }

  /** With unique ids the table and the line lists hold the same stations. */
  lemma BuildCoherent(rows: seq<Record>)
    requires UniqueIds(rows)
    ensures Coherent(Build(rows))
  {
    var g := Build(rows);
    var G := Grouped(rows, |rows|);
    forall line, i | line in g.lines && 0 <= i < |g.lines[line]|
      ensures g.lines[line][i].id in g.stations && g.stations[g.lines[line][i].id] == g.lines[line][i]
    {
      CoherentAt(rows, line, i);
    }
  }

  /** With unique ids, the `i`-th station of a line is the table's station for its id. */
  lemma CoherentAt(rows: seq<Record>, line: string, i: nat)
    requires UniqueIds(rows) && line in BuildLines(rows) && i < |BuildLines(rows)[line]|
    ensures BuildLines(rows)[line][i].id in Build(rows).stations
    ensures Build(rows).stations[BuildLines(rows)[line][i].id] == BuildLines(rows)[line][i]
  {
    var k := Grouped(rows, |rows|)[line][i];
    PositionOfListed(rows, line, i);
    StationsUpToAt(rows, Objects(rows), |rows|, k);
  }

  /** A station on a built line is made from a row, and its neighbours are rows. */
  lemma LinkedStation(rows: seq<Record>, line: string, i: nat) returns (k: nat)
    requires line in BuildLines(rows) && i < |BuildLines(rows)[line]|
    ensures k < |rows| && AsRecord(BuildLines(rows)[line][i]) == rows[k]
    ensures BuildLines(rows)[line][i].prev.Some? ==> BuildLines(rows)[line][i].prev.value in Ids(rows)
    ensures BuildLines(rows)[line][i].next.Some? ==> BuildLines(rows)[line][i].next.value in Ids(rows)
  {
    var ls := Grouped(rows, |rows|)[line];
    k := ls[i];
    if i > 0 {
      assert rows[ls[i - 1]].id in Ids(rows);
    }
    if i < |ls| - 1 {
      assert rows[ls[i + 1]].id in Ids(rows);
    }
  }

  /** With resolving transfers, a station on a built line refers only to table keys. */
  lemma LinkedStationRefsIn(rows: seq<Record>, line: string, i: nat)
    requires TransfersResolve(rows)
    requires line in BuildLines(rows) && i < |BuildLines(rows)[line]|
    ensures BuildLines(rows)[line][i].id in Build(rows).stations
    ensures RefsIn(Build(rows), BuildLines(rows)[line][i])
  {
    var k := LinkedStation(rows, line, i);
    var s := BuildLines(rows)[line][i];
    StationsUpToLastWins(rows, Objects(rows), |rows|);
    assert Build(rows).stations.Keys == Ids(rows);
    assert s.transferIds == rows[k].transferIds;
    assert s.id == rows[k].id;
  }

  lemma BuildClosedIfResolved(rows: seq<Record>)
    requires TransfersResolve(rows)
    ensures Closed(Build(rows))
  {
    var g := Build(rows);
    forall line, i | line in g.lines && 0 <= i < |g.lines[line]|
      ensures g.lines[line][i].id in g.stations && RefsIn(g, g.lines[line][i])
    {
      LinkedStationRefsIn(rows, line, i);
    }
    forall x | x in g.stations
      ensures g.stations[x].id == x && RefsIn(g, g.stations[x])
    {
      var line, p := TableEntryOnLine(rows, x);
      LinkedStationRefsIn(rows, line, p);
    }
  }

  lemma BuildResolvedIfClosed(rows: seq<Record>)
    requires Closed(Build(rows))
    ensures TransfersResolve(rows)
  {
    var g := Build(rows);
    StationsUpToLastWins(rows, Objects(rows), |rows|);
    forall k, i | 0 <= k < |rows| && 0 <= i < |rows[k].transferIds|
      ensures rows[k].transferIds[i] in Ids(rows)
    {
      GroupedPosition(rows, k);
      assert RefsIn(g, g.lines[rows[k].line][Position(rows, k)]);
    }
  }

  /** Every reference of a built network resolves exactly when every transfer id names a row. */
  lemma BuildClosed(rows: seq<Record>)
    ensures Closed(Build(rows)) <==> TransfersResolve(rows)
  {
    if TransfersResolve(rows) {
      BuildClosedIfResolved(rows);
    }
    if Closed(Build(rows)) {
      BuildResolvedIfClosed(rows);
    }
  }

  /** With unique ids, `A.next = B` holds in the table exactly when `B.prev = A` does. */
  lemma BuildLinksSymmetric(rows: seq<Record>)
    requires UniqueIds(rows)
    ensures SymmetricLinks(Build(rows))
  {
    var g := Build(rows);
    forall x | x in g.stations
      ensures g.stations[x].next.Some? ==>
                g.stations[x].next.value in g.stations && g.stations[g.stations[x].next.value].prev == Some(x)
      ensures g.stations[x].prev.Some? ==>
                g.stations[x].prev.value in g.stations && g.stations[g.stations[x].prev.value].next == Some(x)
    {
      LinksSymmetricAt(rows, x);
    }
  }

  lemma LinksSymmetricAt(rows: seq<Record>, x: int)
    requires UniqueIds(rows) && x in Build(rows).stations
    ensures var g := Build(rows);
      && (g.stations[x].next.Some? ==>
            g.stations[x].next.value in g.stations && g.stations[g.stations[x].next.value].prev == Some(x))
      && (g.stations[x].prev.Some? ==>
            g.stations[x].prev.value in g.stations && g.stations[g.stations[x].prev.value].next == Some(x))
  {
    var g := Build(rows);
    var line, p := TableEntryOnLine(rows, x);
    var ss := BuildLines(rows)[line];
    assert ss == LinkLine(rows, Grouped(rows, |rows|)[line]);
    LinkLineLinks(rows, Grouped(rows, |rows|)[line]);
    var e := g.stations[x];
    assert e == ss[p] && ss[p].id == x;
    if e.next.Some? {
      assert p < |ss| - 1;
      CoherentAt(rows, line, p + 1);
      assert e.next.value == ss[p + 1].id;
      assert g.stations[ss[p + 1].id] == ss[p + 1];
      assert ss[p + 1].prev == Some(x);
    }
    if e.prev.Some? {
      assert p > 0;
      CoherentAt(rows, line, p - 1);
      assert e.prev.value == ss[p - 1].id;
      assert g.stations[ss[p - 1].id] == ss[p - 1];
      assert ss[p - 1].next == Some(x);
    }
  }

  /** The table's entry for an id is a station object of some line. */
  lemma TableEntryOnLine(rows: seq<Record>, x: int) returns (line: string, p: nat)
    requires x in Build(rows).stations
    ensures line in BuildLines(rows) && p < |BuildLines(rows)[line]|
    ensures Build(rows).stations[x] == BuildLines(rows)[line][p]
    ensures BuildLines(rows)[line][p].id == x
  {
    StationsUpToLastWins(rows, Objects(rows), |rows|);
    var k := LastRowOf(rows, |rows|, x);
    GroupedPosition(rows, k);
    line := rows[k].line;
    p := Position(rows, k);
  }

  /** With unique ids, the table's station for a line's i-th stop points to the
      (i+1)-th stop and back (the pair property along every line). */
  lemma BuildLinksConsecutive(rows: seq<Record>)
    requires UniqueIds(rows)
    ensures forall line, i | line in Build(rows).lines && 0 <= i < |Build(rows).lines[line]| - 1 ::
      var g := Build(rows);
      var a := g.lines[line][i];
      var b := g.lines[line][i + 1];
      a.id in g.stations && b.id in g.stations &&
      g.stations[a.id].next == Some(b.id) && g.stations[b.id].prev == Some(a.id)
  {
    BuildCoherent(rows);
    BuildLinksLines(rows);
  }
}
