# Subway transfer routes

A Dafny model of the core of `project.py`, a subway transfer planner. The
`SubwaySystem` there loads a station table and then answers route queries.

**Loading.** Each row `(id, line, name, transfer_ids)` becomes a `Station`.
The station is stored in `stations[id]` and appended to its line's list.
Once all rows are in, every line list is scanned to link each station to its
neighbours through `prev` and `next`. The model starts from rows that are
already parsed (`Network.Record`). `Network.Build` turns them into a
`Network.Graph`, which holds the id-indexed station table and the per-line
station lists. `prev` and `next` are ids, resolved through the table.

**Route search.** `find_route(start_line, start_station, end_line, end_station)`
does the following:
- It finds each end of the query as the first station of the named line with
  the given name.
- It runs a backtracking depth-first search, `dfs`, that never enters a
  station id twice on one path.
- On the target line the search only rides along the line.
- Off the target line, a transfer straight onto the target line is taken
  whenever one is open. Otherwise every other transfer is tried, then `prev`,
  then `next`.
- A path that reaches the target id is kept unless an earlier path had the same
  signature. The signature is the path's ids, with runs of three or more
  equal ids cut to two, joined with commas.

In the model:
- `RouteSearch.Dfs` and `RouteSearch.Explore` are mutually recursive pure
  functions. They thread the search state (visited ids, current path, results,
  signatures seen) as a value. They terminate on the number of unvisited
  station ids.
- `RouteProperties.Enumerate` is a reference definition: the same search
  without any shared state or deduplication. It steps by the same
  `RouteSearch.Moves` as `Dfs`, whose order and membership are pinned down
  separately by `RouteProperties.MoveRules`, `RouteProperties.MovesComplete`
  and `RouteProperties.MovesFollowTransferList`.
- `RouteProperties.IsRoute` is a declarative description of the paths the
  search policy allows.
- The two are connected by proofs that the search returns exactly the
  deduplicated enumeration, and that the enumeration lists exactly the routes.
- `PathSignature` models `get_path_signature` as real text: run capping,
  decimal rendering and the comma join. A decoder proves that the text
  determines the capped id list.
- `Scenario` works through a five-station, two-line network end to end.

Files:
- `wrappers.dfy`: `Option` and `Result`.
- `signature.dfy`: module `PathSignature`.
- `network.dfy`: module `Network`.
- `search.dfy`: module `RouteSearch`.
- `routes.dfy`: module `RouteProperties`.
- `scenario.dfy`: module `Scenario`.

Points where the code behaves in ways a reader might not expect, and which the
model follows as written:
- **Duplicate ids.** Loading does not reject a repeated station id. A later
  row silently replaces `stations[id]` (project.py:73), while both station
  objects stay in the line list (project.py:78). `Network.Build` models this
  overwrite.
- **Unknown line names.** A missing name on an existing line gives an empty
  result (project.py:104-105), but an unknown line raises `KeyError` when
  `self.lines` is indexed (project.py:101, and 102 for the end line). The
  start line is indexed first. `RouteSearch.FindRoute` returns
  `Err(UnknownLine(name))` for the first unknown line.
- **Transfer ids.** `transfer_ids` is a list kept as written, with its order
  and any repeats (project.py:69), and that order fixes the order of the
  search. The model keeps `transferIds` as a sequence.
- **Capped repeats.** The docstring of `get_path_signature`
  (project.py:119-120) allows two equal consecutive ids on a path, standing
  for a transfer. The `visited` check (project.py:143) makes every id on a
  path distinct, so the run-capping never fires on a path the search builds
  (`RouteProperties.RouteSignatureIsIds`).

## Model

| member | source | states |
|---|---|---|
| Network.Build | project.py:64-88 | No contract of its own. What loading produces is stated by `Network.BuildKeepsLastRow`, `Network.BuildGroupsLines` and `Network.BuildLinksLines`. |
| Network.BuildKeepsLastRow | project.py:64-78 | The station table has exactly one entry per id in the input. Each entry is the station object of the last row with that id, the one that row appended to its line's list, at the index given by the number of earlier rows of that line, with its `prev` and `next`. A later duplicate overwrites an earlier one. |
| Network.BuildGroupsLines | project.py:76-78 | The line lists are keyed by exactly the line names in the input, and each list holds that line's rows in input order, duplicates included. |
| Network.BuildLinksLines | project.py:81-88 | In every line list, consecutive stations a, b have `a.next == b.id` and `b.prev == a.id`; the first station has no `prev` and the last no `next`. |
| Network.BuildLinksConsecutive | project.py:81-88 | With distinct ids, the station table's entries for consecutive stations of a line point to each other through `next` and `prev`. |
| Network.BuildLinksSymmetric | project.py:81-88 | With distinct ids, `next` and `prev` in the station table are inverse: following `next` and then `prev` (and the other way round) returns to the same id. |
| Network.BuildCoherent | project.py:73-78 | With distinct ids, every station listed on a line is the very station the table holds for its id. |
| Network.BuildClosed | project.py:166 | The built network is closed (no dangling reference) if and only if every transfer id names some row; when it is closed, no lookup of the search can raise `KeyError`. |
| Network.Grouped | project.py:76-78 | The row indices grouped by line name: each list holds only rows of its line, in strictly increasing input order, and no list is empty. Completeness, that every row of a line is in its list, is `Network.GroupedRows`. |
| Network.GroupedRows | project.py:76-78 | After any prefix of the rows, the records a line's list points at are exactly that line's rows in input order, and a line without a list has no rows. |
| Network.LinkLine | project.py:81-88 | No contract of its own. Its linking is stated by `Network.LinkLineLinks`. |
| Network.LinkLineLinks | project.py:81-88 | In a linked line, consecutive stations point to each other through `next` and `prev`; the first has no `prev` and the last no `next`. |
| Network.GroupedKeys | project.py:76-77 | After any prefix of the rows, the grouping has a list for exactly the line names seen so far. |
| Network.StationsUpToLastWins | project.py:73 | After any prefix of the rows, the table's keys are the ids seen so far, and each holds the object of the last row with that id. |
| PathSignature.CapRuns | project.py:125-132 | The kept ids are never longer than the input, never contain three equal consecutive ids, and end with the input's last id. |
| PathSignature.CapRunsIsSubsequence | project.py:125-132 | The kept ids are a subsequence of the path's ids. |
| PathSignature.CapRunsKeepsRunFree | project.py:125-132 | A path without three equal consecutive ids is kept unchanged. |
| PathSignature.CapRunsIdempotent | project.py:125-132 | Capping a capped list changes nothing. |
| PathSignature.CapRunsCapsEveryRun | project.py:125-132 | Run by run, the kept list has the same ids in the same order as the input, and each run's length is cut to at most two. |
| PathSignature.IntTextRoundTrip | project.py:133 | The decimal text `str(id)` of any integer, negative ones included, parses back to that integer. |
| PathSignature.SignatureText | project.py:125-133 | The signature text determines the kept id list: splitting it at commas and parsing each field gives back exactly the kept ids. |
| RouteSearch.Signature | project.py:116-133 | A path's signature decodes to its id list with every run cut to two. |
| PathSignature.SignatureTextInjective | project.py:125-133 | Two id lists have the same signature text if and only if their capped id lists are equal. |
| RouteSearch.FirstNamed | project.py:101-102 | Finds nothing exactly when no station of the line has the name; otherwise finds a station with that name, and no earlier station of the line has it. |
| RouteSearch.FindRoute | project.py:100-105 | An unknown start line is an error naming it, checked first; otherwise an unknown end line is an error naming that line; these are the only errors; a name missing from its line gives no routes. |
| RouteSearch.Moves | project.py:156-185 | Every transfer tried leaves a station off the target line for an unvisited station; every other move goes to the `prev` or `next` station. The converse and the order, including transfers in `transfer_ids` order, are stated by `RouteProperties.MovesComplete` and `RouteProperties.MovesFollowTransferList`. |
| RouteSearch.Accept | project.py:149-153 | The path's signature is added to the set seen, and the path is appended to the results exactly when its signature was not seen before; nothing else changes. |
| RouteSearch.MovesFromTable | project.py:157-185 | Every station the search moves to is the table's station for its id and can itself be searched from, so no lookup fails. |
| RouteSearch.OpenTransfersMembers | project.py:165-171 | The open transfers are exactly the table stations of the transfer ids that are not yet visited. |
| RouteSearch.Dfs | project.py:143-188 | `dfs` returns with `visited` and the current path restored to their entry values, and it only ever adds to the results and to the signatures seen. |
| RouteSearch.Explore | project.py:157-185 | Each loop over the moves also restores `visited` and the current path, and only adds results and signatures. |
| RouteProperties.DfsIsDedupedEnumeration | project.py:135-188 | One call of `dfs` appends to the results the paths of the reference enumeration whose signatures were not seen before, first of each signature kept, and adds all their signatures to the set seen. |
| RouteProperties.ExploreIsDedupedEnumeration | project.py:156-185 | The same for a loop over a list of moves: its effect is the deduplicated enumeration of all the moves in order. |
| RouteProperties.FindRouteIsDedupedEnumeration | project.py:100-192 | When both ends are found, `find_route` returns the reference enumeration from start to end, with only the first path of each signature kept, in discovery order. |
| RouteProperties.DedupKeepsFirst | project.py:150-153 | Every kept path is a path of the input whose signature is neither seen before nor carried by any earlier input path. |
| RouteProperties.DedupKeysDistinct | project.py:150-153 | Kept paths have pairwise different signatures, none of them among those seen before. |
| RouteProperties.DedupKeepsEveryKey | project.py:150-153 | Every signature of the input is carried by some kept path or was seen before. |
| RouteProperties.EnumerateExactlyRoutes | project.py:135-188 | A path is enumerated from the start if and only if it is a route. A route starts at `(start, False)`, ends at the first station with the target's id, never repeats an id, and makes every step by the move policy. |
| RouteProperties.MoveRules | project.py:156-185 | Each move tried is one of two kinds. A transfer happens only off the target line, to an unvisited id in `transfer_ids`. Any other move goes to `prev` or `next`. When an unvisited transfer onto the target line exists off it, every move tried is such a transfer. |
| RouteProperties.MovesComplete | project.py:156-185 | Every move the rules allow is tried. This covers every unvisited transfer onto the target line, and every unvisited transfer when none goes onto it. It covers `prev` and `next`, on the target line or when no transfer onto it is open. Transfers come before moves along the line, and `prev` before `next`. The transfers tried are exactly the allowed indices of `transfer_ids`, each once, in list order. |
| RouteProperties.MovesFollowTransferList | project.py:165-180 | Some strictly increasing list of indices into `transfer_ids` holds exactly the indices the rules allow: an unvisited station onto the target line, or any unvisited station when none goes onto it. The moves begin with those stations, as transfers, in that order, and no later move is a transfer. |
| RouteProperties.OpenTransferIsDirect | project.py:162-174 | The list of unvisited transfers onto the target line (`target_line_transfers`) is non-empty if and only if some transfer id names an unvisited station on that line. |
| RouteProperties.RouteIsSimple | project.py:143-147 | No station id occurs twice on a route. |
| RouteProperties.RouteSignatureIsIds | project.py:116-133 | On a route, capping removes nothing, and the signature decodes to exactly the route's id list. |
| RouteProperties.RouteSignaturesMatchIds | project.py:116-133 | Two routes have equal signatures if and only if they visit the same ids in the same order. |
| RouteProperties.RouteEndsAtTarget | project.py:149 | When both ends are the table's stations for their ids, a route ends at the target station itself. |
| RouteProperties.ResultIsFirstRoute | project.py:149-153 | Every returned path is a route, and it is the first enumerated route with its id list. |
| RouteProperties.ResultEndpoints | project.py:135-191 | Every returned path begins with `(start, False)`, ends at the end station's id and reaches it nowhere earlier, and never repeats an id. When the lines agree with the table, the last station is the end station itself. |
| RouteProperties.ResultSteps | project.py:156-185 | Every hop of a returned path follows an edge of the network. A hop flagged as a transfer goes to an id in the previous station's `transfer_ids`, and never from a station on the target line. Any other hop goes to its `prev` or `next`. From a station off the target line with an unvisited transfer onto it, the hop is such a transfer. |
| RouteProperties.ResultsDistinct | project.py:150-153 | No two returned paths share a signature or an id list. |
| RouteProperties.EveryRouteReturned | project.py:135-192 | Every route from start to end has its id list among the returned paths. |
| Scenario.SampleIsBuilt | project.py:64-88 | The five example rows load into the expected table and linked lines. |
| Scenario.CrossLineScenario | project.py:100-192 | From X on line A to W on line B the only route rides to Y, transfers to the other Y and rides on to W. |
| Scenario.SameLineScenario | project.py:100-192 | From X to Z on one line the only route rides straight along it. |
| Scenario.MissingNameScenario | project.py:101-105 | A name missing from its line gives no routes. |
| Scenario.UnknownLineScenario | project.py:101-102 | An unknown end line is an error naming that line. |

## Left out

- Opening and reading the CSV file and parsing its fields into integers and id lists (project.py:59-69). The model starts from parsed rows.
- The interactive `main` (project.py:194-264): input splitting, validation messages and printing are user interface.
- Object identity of `prev` and `next`. The source links the row objects in each line list. The model stores neighbour ids and resolves them through the station table. The two agree when ids are distinct (`Network.BuildCoherent`, `Network.BuildLinksConsecutive`). With duplicate ids, the source follows the overwritten object and the model follows the table's entry.
- The `KeyError` for a transfer id outside the table (project.py:166). The search requires `Network.Closed`, and `Network.BuildClosed` says exactly when loading produces such a network.
- The recursion limit of the Python interpreter. `dfs` recurses once per station on the current path (project.py:159, 176, 180, 185). With the default limit of 1000 frames, a search that follows a path of about a thousand stations raises `RecursionError` in the source. `main`'s catch-all reports this as an error. `RouteSearch.Dfs` has no depth bound and returns normally.
- Running time. The search is exponential in the worst case, and only its termination is proved.
