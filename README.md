# Hashiwokakero solvers and a cryptarithm solver, in Dafny

This project models the puzzle-solving core of a small course repository. It contains three
generations of a solver for Hashiwokakero ("hashi"), plus a brute-force solver for
cryptarithms such as SEND + MORE = MONEY.

In hashi, a rectangular grid holds numbered islands (non-zero cells). A solution places 0 to
3 planks on every straight bridge between two islands that see each other along a row or a
column. Every island must carry exactly its number of planks, and bridges must not cross.

## The solvers

- **scan_and_print.py** is the first generation. It keeps plain dictionaries:
  - bridge id ↦ planks;
  - cell ↦ remaining count;
  - the starts, ends and interior cells of each bridge.

  It searches bridges in ascending order of "connectedness". A set of occupied cells keeps
  crossing bridges apart. This version is modelled in `ScanAndPrint`.

- **A1/hashi.py** is the second generation. It works on `Bridge` objects (A1/bridge.py), each
  carrying a plank range `minimum..maximum` and the list of bridges it crosses, and on `Island`
  objects (A1/island.py) that list their bridges. It runs two passes of forward checking until
  nothing changes. A global counter of islands not yet satisfied drives the search.
  - Modelled in `HashiBuild`, for the construction of bridges, islands and crossings.
  - Modelled in `Hashi`, for propagation and search. Here the global counter is a field of
    `Hashi.Board`.

- **A1/airplane.py** is the third generation. It is the same construction with:
  - plank caps (`set_max_values`);
  - a propagation that skips decided bridges and stops at the first empty range;
  - a search that passes the counter by value and snapshots every range around propagation.

  Its search also reads a plank count and a `done` flag per bridge. No Bridge class sets
  either before the search starts, so the model keeps them as fields of its own with assumed
  initial values (see "Left out"). It is modelled in `Airplane`.

- **bridge.py and island.py** at the top level are the earliest versions of the two classes.
  They are modelled in `EarlyBridges` and `EarlyIslands`.

- **A1/cryptoarith.py** works as follows:
  - it interns the letters of the three words;
  - it evaluates a word as a decimal number;
  - it checks one digit assignment;
  - it enumerates every injective assignment of digits.

  It is modelled in `Cryptarithm`.

## Shared modules

Several modules hold what the files share:
- `Cells`: grid cells, and the interior cells of a bridge.
- `Bridges`: the A1 `Bridge` record and its `done()`, modelled as the predicate `Bounds.Done`, which holds exactly when `minimum == maximum`.
- `Islands`: the A1 `Island` class.
- `Lines` and `Topology`: the row and column scans of `find_bridges`.
- `Ordering`: the stable ascending sort by connectedness.
- `Propagation`: the sums, ranges and solution predicates behind forward checking.

## Data representation

- Grids are `seq<seq<int>>` with rows of equal length. Cells are `(row, column)` pairs.
- Bridge ids are positions in a `seq<Bridge>`. The mutable per-bridge fields of each solver are `seq` fields of a `Board` class that its methods reassign:
  - `bounds` in both A1 solvers;
  - `planks` and `done` in airplane.py.
- Islands built by A1/hashi.py are `Islands.Island` objects, because `add_bridge` changes them in place.

## Model

| member | source | states |
|---|---|---|
| Cells.Column | A1/hashi.py:388-395 | the column scanned for vertical bridges has one entry per row, each the grid's value in that column |
| Cells.InteriorCells | A1/bridge.py:10-16 | the indices loop builds exactly the interior cell list `Interior`, whose meaning `Cells.InteriorSpec` states |
| Cells.InteriorSpec | A1/bridge.py:10-16 | a cell is in `indices` iff it lies strictly between the endpoints on the bridge's row (horizontal) or column (vertical); the list increases along the axis, excludes both endpoints, and has length equal to the axis distance minus one |
| Cells.InteriorDistinct | A1/bridge.py:10-16 | `indices` has no repeated cell |
| Cells.MeetSymmetric | A1/hashi.py:352-356 | two index lists share a cell in one order iff in the other, so the crossing test is symmetric |
| Bridges.NewBridge | A1/bridge.py:2-16 | a new bridge keeps its endpoints and direction, has range 0..3, no crossings, and `indices` equal to its interior cells |
| Islands.PlacedSumFrame | A1/island.py:13-19 | the placed-plank sum of an island does not change when a bridge it does not list changes |
| Islands.Island.constructor | A1/island.py:4-8 | a new island stores x, y and number and lists no bridge |
| Islands.Island.AddBridge | A1/island.py:10-11 | add_bridge appends the id at the end and keeps the earlier entries |
| Islands.Island.Done | A1/island.py:13-19 | done holds iff the minima of its decided bridges sum to its number; done excludes over |
| Islands.Island.Over | A1/island.py:21-27 | over holds iff the minima of its decided bridges exceed its number; over excludes done |
| Lines.Links | A1/hashi.py:378-385 | a line with n ≥ 2 islands yields n − 1 consecutive pairs, none otherwise |
| Lines.StopsSpec | A1/hashi.py:372-385 | the islands of a line are found in increasing order, and they are exactly its non-zero positions |
| Lines.LinksSnoc | A1/hashi.py:379-385 | finding one more island adds exactly one bridge from the previous island to it |
| Lines.SpansSound | A1/hashi.py:372-385 | every bridge of a line joins two non-zero cells, start before end, with only zero cells between; bridges come in order along the line |
| Lines.NextStop | A1/hashi.py:379-385 | the island after the current one is the nearest non-zero cell beyond it |
| Lines.SpansComplete | A1/hashi.py:372-385 | every pair of non-zero cells with only zeros between them becomes a bridge |
| Lines.FirstStop | A1/hashi.py:372-375 | the first-island loop returns −1 on a line of zeros, and otherwise the first non-zero position |
| Lines.ScanLine | A1/hashi.py:369-385 | one row or column pass builds exactly the bridges of that line |
| Topology.RowSpansLegal | A1/hashi.py:368-385 | every bridge found on row r is horizontal, lies on row r, and joins islands with only water between |
| Topology.ColumnSpansLegal | A1/hashi.py:388-405 | every bridge found on column c is vertical, lies on column c, and joins islands with only water between |
| Topology.HorizontalSpansLegal | A1/hashi.py:368-385 | all horizontal bridges of the first n rows are legal, horizontal, and lie on those rows |
| Topology.VerticalSpansLegal | A1/hashi.py:388-405 | all vertical bridges of the first n columns are legal, vertical, and lie on those columns |
| Topology.AllSpansLegal | A1/hashi.py:359-407 | every bridge that find_bridges creates is legal |
| Topology.HorizontalSpansOrdered | A1/hashi.py:368-385 | horizontal bridge ids follow row order, and within a row they follow column order |
| Topology.VerticalSpansOrdered | A1/hashi.py:388-405 | vertical bridge ids follow column order, and within a column they follow row order |
| Topology.AllSpansOrdered | A1/hashi.py:359-407 | ids are consecutive from 0: all horizontal bridges row by row, then all vertical bridges column by column |
| Topology.RowSpansIncluded | A1/hashi.py:368-385 | a bridge of an earlier row is among the horizontal bridges of the first n rows |
| Topology.ColumnSpansIncluded | A1/hashi.py:388-405 | a bridge of an earlier column is among the vertical bridges of the first n columns |
| Topology.AllSpansComplete | A1/hashi.py:359-407 | every legal bridge of the grid is created |
| Ordering.StableOrder | A1/hashi.py:46-47 | the sort returns every bridge exactly once, in ascending connectedness, ties kept in id order |
| Ordering.InsertionPoint | A1/hashi.py:47 | a new bridge goes after every bridge whose score is ≤ its own and before every bridge with a larger score (stability) |
| Ordering.InsertSorted | A1/hashi.py:47 | inserting at that point keeps the order sorted and stable, and adds exactly the new bridge |
| Ordering.Arrange | A1/hashi.py:47 | mapping sorted positions back to ids keeps the length |
| Ordering.ArrangeIsPermutation | A1/hashi.py:47 | the sorted ids are exactly the dictionary's ids, each once |
| Propagation.Total | A1/hashi.py:101-106 | the inner loop sums the maxima (or minima) of an island's other bridges, as `SumOthers` defines |
| Propagation.SumOthersMonotone | A1/hashi.py:101-124 | the sum of the others can only grow when each of their fields grows |
| Propagation.SumOthersSkipAbsent | A1/hashi.py:103-104 | skipping a bridge the island does not list changes nothing |
| Propagation.SumOthersSplit | A1/hashi.py:103-106 | the island's total is the sum of the others plus the bridge itself |
| Propagation.SumOthersNonNegative | A1/hashi.py:120-124 | sums of non-negative fields are non-negative |
| Propagation.SolutionBounds | A1/hashi.py:108-128 | every solution within the ranges satisfies number − Σ others' maxima ≤ x ≤ number − Σ others' minima, so both narrowing rules keep all solutions |
| Propagation.CrossedHoldsNothing | A1/airplane.py:177-179 | once a propagation that keeps every solution has emptied a range, no solution lay inside the ranges it started from, so returning False there loses nothing |
| Propagation.SolutionCapped | A1/airplane.py:134-138 | a solution puts no more planks on a bridge than either end island's number |
| HashiBuild.FindIslands | A1/hashi.py:335-344 | the island dictionary has exactly the non-zero cells as keys, each a fresh island with that cell's coordinates and number and no bridges; keys come in row-major order |
| HashiBuild.ScanRow | A1/hashi.py:339-343 | scanning row r adds exactly that row's islands |
| HashiBuild.AddIsland | A1/hashi.py:341-343 | a non-zero cell adds one fresh island under its own key |
| HashiBuild.FindBridges | A1/hashi.py:359-407 | bridge i is a new bridge (range 0..3, no crossings, its interior cells) on the i-th legal span, horizontal ones first |
| HashiBuild.BuiltSnoc | A1/hashi.py:382-384 | creating one more bridge extends the built prefix by its span |
| HashiBuild.BuiltAppend | A1/hashi.py:359-407 | the bridges of two consecutive scans are the bridges of the concatenated spans |
| HashiBuild.BuildRow | A1/hashi.py:369-385 | one row pass appends the bridges of that row's spans |
| HashiBuild.BuildColumn | A1/hashi.py:389-405 | one column pass appends the bridges of that column's spans |
| HashiBuild.ColumnBridges | A1/hashi.py:398-405 | the bridges created on column c are exactly that column's spans |
| HashiBuild.IncidentSpec | A1/hashi.py:139-143 | the ids an island receives are exactly the bridges with that island as start or end, in increasing order |
| HashiBuild.EndsSpec | A1/hashi.py:142-143 | one bridge adds its id to an island's list iff the island is its start or its end |
| HashiBuild.IncidentMembers | A1/hashi.py:139-143 | an id is in an island's list iff that bridge starts or ends at the island |
| HashiBuild.IncidentHas | A1/hashi.py:139-143 | the same, for one id |
| HashiBuild.EndsHas | A1/hashi.py:142-143 | the same, for one bridge |
| HashiBuild.IncidentSorted | A1/hashi.py:139-143 | an island's list only holds ids of bridges already visited, in non-decreasing order |
| HashiBuild.IncidentOnce | A1/hashi.py:139-143 | when no bridge starts and ends at the same cell, an island lists each bridge once |
| HashiBuild.AddToEnds | A1/hashi.py:140-143 | handling bridge id appends it to its start's and its end's list and changes no other island |
| HashiBuild.FindIslandBridges | A1/hashi.py:139-143 | after the loop, each island's list is its old list followed by exactly its incident bridge ids, in id order |
| HashiBuild.CrossingSpec | A1/hashi.py:347-356 | b2 is in the crossings of b1 iff b2 ≠ b1 and their interiors share a cell; the list increases, so it has no duplicates |
| HashiBuild.CrossingSymmetric | A1/hashi.py:347-356 | crossing is symmetric and irreflexive |
| HashiBuild.Shares | A1/hashi.py:353-356 | the inner loop answers whether the two interiors share a cell |
| HashiBuild.FindBridgeCrossings | A1/hashi.py:347-356 | each bridge's crossings are its old list followed by every crossing bridge in id order; nothing else changes |
| HashiBuild.CrossingsOf | A1/hashi.py:349-356 | the crossings appended to one bridge are those of its crossing relation |
| HashiBuild.ConnectedSpec | A1/hashi.py:153-165 | the connections of a bridge are the other bridges that share an endpoint with it, without duplicates |
| HashiBuild.ConnectedSymmetric | A1/hashi.py:153-165 | sharing an endpoint is symmetric |
| HashiBuild.FindBridgeConnections | A1/hashi.py:153-165 | every bridge gets the list of bridges sharing an endpoint with it, in id order |
| HashiBuild.Wire | A1/hashi.py:37-43 | main's construction steps give one bridge per legal span in scan order, each with range 0..3 and its interior cells as indices; bridge j is in bridge i's crossings iff j ≠ i and their interiors share a cell; the islands are exactly the non-zero cells, each carrying its cell's number and listing exactly its incident bridges |
| HashiBuild.IslandListsWired | A1/hashi.py:139-143 | islands' lists are duplicate-free, hold valid ids, and say which bridges touch which islands |
| HashiBuild.CrossingsWired | A1/hashi.py:347-356 | every crossing id is a valid id other than the bridge itself |
| Hashi.Board.constructor | A1/hashi.py:41 | the search state starts from the built bridges' ranges, with the counter at the number of islands |
| Hashi.Board.SolutionFeasible | A1/hashi.py:57-79 | a solution within the ranges passes forward_check, so a failed check rules out every solution |
| Hashi.Board.DoneElsewhere | A1/hashi.py:292-309 | changing a bridge cannot change whether an island that is not one of its ends is done |
| Hashi.Board.ForwardCheck | A1/hashi.py:57-79 | returns False exactly when some island's number exceeds the sum of its bridges' maxima or is below the sum of their minima |
| Hashi.Board.RaiseBridge | A1/hashi.py:101-112 | raising one minimum narrows the ranges and keeps every solution; when nothing changes, the rule's bound already holds |
| Hashi.Board.RaiseIsland | A1/hashi.py:97-112 | one island's raise step narrows and keeps solutions; with no change, all its bridges meet the lower rule |
| Hashi.Board.RaiseMinimums | A1/hashi.py:96-112 | the max-search pass never lowers a minimum or touches a maximum, keeps solutions, and with no change leaves every bridge meeting `minimum ≥ number − Σ others' maxima` |
| Hashi.Board.LowerBridge | A1/hashi.py:119-130 | lowering one maximum narrows the ranges and keeps every solution; when nothing changes, the rule's bound already holds |
| Hashi.Board.LowerIsland | A1/hashi.py:115-130 | one island's lower step narrows and keeps solutions; with no change, all its bridges meet the upper rule |
| Hashi.Board.LowerMaximums | A1/hashi.py:114-130 | the min-search pass never raises a maximum or touches a minimum, keeps solutions, and with no change leaves every bridge meeting `maximum ≤ number − Σ others' minima` |
| Hashi.Board.InitialForwardCheck | A1/hashi.py:82-136 | propagation only narrows and keeps every solution; when a pass changes nothing, both rules hold for every incident bridge of every island; the counter drops by the number of done islands |
| Hashi.Board.CountOffDone | A1/hashi.py:132-136 | the counter drops by exactly the number of islands that are done |
| Hashi.Board.FindConnectedness | A1/hashi.py:168-179 | each bridge's score is the length of its start island's list plus its end island's, at least 2 |
| Hashi.Board.PlaceBridge | A1/hashi.py:292-309 | only the target bridge's range changes, to the single value; the counter drops once for each end island that becomes done |
| Hashi.Board.RemoveBridge | A1/hashi.py:311-327 | only the target bridge's range changes, back to the given range; the counter rises once for each end island that stops being done |
| Hashi.Board.ZeroCrossings | A1/hashi.py:243-247 | every crossed bridge is set to 0..0 and no other range changes; the saved range of each is the current bridge's range, as written; the counter only drops, by at most two per crossed bridge, as `place_bridge` counts off end islands that become done |
| Hashi.Board.RestoreCrossings | A1/hashi.py:275-278 | every crossed bridge gets its saved range back and no other range changes; the counter only rises, by at most two per crossed bridge, as `remove_bridge` counts back end islands that stop being done |
| Hashi.Board.TryPlanks | A1/hashi.py:258-273 | the plank loop tries start, start−1, … down to but excluding end (end ≥ 0), so every value tried is at least 1; it tries all of them when it fails; success means the counter is 0; bridges the search does not visit or cross keep their ranges |
| Hashi.Board.TryPlank | A1/hashi.py:260-273 | one plank count: when the placed value overfills an end island, it fails with only that bridge changed to the value; otherwise it recurses, and a failure gives the bridge the given range back; success means the counter is 0; bridges the search does not visit or cross keep their ranges |
| Hashi.Board.Backtrack | A1/hashi.py:208-236 | True at once when the counter is 0, with nothing changed; False with nothing changed at the end of the order or when forward_check fails; True only with the counter at 0; on failure an undecided current bridge gets its entry range back |
| Hashi.Board.Branch | A1/hashi.py:238-290 | for an undecided bridge, the values tried are min(3, start number, end number, maximum) down to max(1, minimum), one at a time, and all of them on failure; success means the counter is 0; on failure the bridge's entry range is restored |
| Hashi.Board.SkipBridge | A1/hashi.py:280-290 | the skip case places 0 planks, recurses, and on failure restores the given range |
| Hashi.Preprocess | A1/hashi.py:36-47 | preprocessing builds one bridge per legal span with range 0..3 and islands for exactly the non-zero cells with their numbers; the propagated ranges narrow 0..3 and keep every solution; the counter is the number of islands minus those already done; the order lists every bridge once by ascending connectedness, with ties in id order as the stable sort leaves them |
| Hashi.Propagated | A1/hashi.py:41-44 | starting from the built ranges, the propagated ranges only narrow and keep every solution; the counter is the number of islands minus those done; a converged run leaves both rules holding for every incident bridge |
| Airplane.Board.constructor | A1/airplane.py:21-24 | bridges start with their built ranges; no planks and a cleared done flag are this model's initial values, since no Bridge class sets them |
| Airplane.Board.CapHoldsSolutions | A1/airplane.py:134-138 | a solution of 0 to 3 planks per bridge never exceeds min(3, start number, end number), so the cap keeps solutions |
| Airplane.Board.SetMaxValues | A1/airplane.py:134-138 | every maximum becomes min(3, start.number, end.number); the minima are untouched |
| Airplane.Board.AllOrdered | A1/airplane.py:208-213 | the final check returns True exactly when no range is empty |
| Airplane.Board.ForwardCheckBridge | A1/airplane.py:85-131 | returns False exactly when some bridge already has maximum < minimum, and then no solution lies within the current ranges; it changes no range |
| Airplane.Board.RaiseBridge | A1/airplane.py:157-179 | a decided bridge is skipped; otherwise the minimum only rises, solutions are kept, and a crossed range is reported |
| Airplane.Board.RaiseIsland | A1/airplane.py:155-179 | one island's raise step narrows, keeps solutions and decided bridges, and reports an empty range |
| Airplane.Board.RaiseMinimums | A1/airplane.py:154-179 | the min pass never lowers a minimum or touches a maximum, skips decided bridges, keeps solutions, and stops on an empty range |
| Airplane.Board.LowerBridge | A1/airplane.py:184-206 | a decided bridge is skipped; otherwise the maximum only falls, solutions are kept, and a crossed range is reported |
| Airplane.Board.LowerIsland | A1/airplane.py:182-206 | one island's lower step narrows, keeps solutions and decided bridges, and reports an empty range |
| Airplane.Board.LowerMaximums | A1/airplane.py:181-206 | the max pass never raises a maximum or touches a minimum, skips decided bridges, keeps solutions, and stops on an empty range |
| Airplane.Board.InitialForwardCheck | A1/airplane.py:141-213 | only narrows, keeps solutions and decided bridges; returns True exactly when no range is empty, and False rules out every solution within the entry ranges; with loop=False it makes exactly one pass; a converged loop leaves both rules holding for every undecided bridge |
| Airplane.Board.PlaceBridge | A1/airplane.py:215-221 | the bridge gets planks = minimum = maximum = value and done = True; nothing else changes |
| Airplane.Board.RemoveBridge | A1/airplane.py:223-228 | the bridge gets planks 0, the given range and done = False; nothing else changes |
| Airplane.Board.GetCurrentMinMaxState | A1/airplane.py:275-280 | the snapshot records every bridge's range |
| Airplane.Board.RestoreMinMaxState | A1/airplane.py:283-287 | restoring a snapshot returns every range to it and leaves planks and done flags alone |
| Airplane.Board.FindConnectedness | A1/airplane.py:260-272 | exactly the bridges with no planks and no done flag get a score, the sum of their end islands' list lengths, at least 2 |
| Airplane.Board.BridgeOrder | A1/airplane.py:32-33 | the order lists each scored bridge once, in ascending score, with ties in id order as the stable sort leaves them |
| Airplane.Board.ZeroCrossings | A1/airplane.py:352-356 | every crossed bridge is placed at 0 (range 0..0, done) and nothing else changes; the saved range is the current bridge's, as written |
| Airplane.Board.RestoreCrossings | A1/airplane.py:395-398 | every crossed bridge is removed back to its saved range, planks 0 and not done; nothing else changes |
| Airplane.Board.TryValue | A1/airplane.py:369-393 | a value whose propagation fails leaves the ranges as right after placement, and no solution holds that value within the entry ranges; after a successful propagation, which only narrows and keeps every solution, the result is success exactly when the done end islands use up the counter, and an overfilled end island is never recursed on |
| Airplane.Board.Advance | A1/airplane.py:376-393 | it returns success, unchanged, exactly when the done end islands use up the counter; otherwise an over end island stops the value, unchanged; only with neither does the search go on from the next position |
| Airplane.Board.TryPlanks | A1/airplane.py:364-393 | the plank loop keeps the board coherent; bridges the search does not visit or cross keep their planks and done flag, and their ranges only narrow; the others are not constrained |
| Airplane.Board.Backtrack | A1/airplane.py:317-345 | True at once with nothing changed when the counter is 0; False with nothing changed at the end of the order; on failure an undecided current bridge gets its range back, with no planks and the flag cleared |
| Airplane.Board.Branch | A1/airplane.py:347-411 | for an undecided bridge: on failure its range is restored, with no planks and the flag cleared; bridges the search does not visit or cross keep their planks and flag and only narrow |
| Airplane.Board.SkipBridge | A1/airplane.py:400-411 | the skip case places 0 planks, recurses, and on failure removes the bridge back to the given range |
| Airplane.Preprocess | A1/airplane.py:20-33 | the board of Airplane.Build, with every bridge ordered once by ascending connectedness and ties in id order |
| Airplane.Build | A1/airplane.py:20-28 | one bridge per legal span in scan order; islands for exactly the non-zero cells with their numbers; no planks or flags; every range within 0..min(3, both end numbers); every solution of at most 3 planks per bridge still within the ranges |
| Airplane.Propagated | A1/airplane.py:24-28 | every maximum is capped at min(3, both end numbers) and no minimum falls below the built one; every solution of at most 3 planks per bridge within the built ranges stays within the result; False is returned exactly when a range is empty, and then no such solution exists; no planks, no flags |
| Airplane.SortByScore | A1/airplane.py:33 | the sorted ids are the scored ids, each once, in ascending score, with ties in id order |
| ScanAndPrint.FindIslands | scan_and_print.py:226-234 | the dictionary maps exactly the non-zero cells to their values |
| ScanAndPrint.Record | scan_and_print.py:263-270 | recording one bridge appends its plank count 0, its interior cells, its start and its end |
| ScanAndPrint.FindBridges | scan_and_print.py:237-298 | bridge i has 0 planks, the i-th legal span's start and end, and its interior cells in increasing order |
| ScanAndPrint.RecordRow | scan_and_print.py:249-271 | one row pass records the bridges of that row |
| ScanAndPrint.RecordColumn | scan_and_print.py:275-296 | one column pass records the bridges of that column |
| ScanAndPrint.FindBridgeIslands | scan_and_print.py:42-46 | each bridge maps to its (start, end) pair |
| ScanAndPrint.FindIslandBridges | scan_and_print.py:49-62 | the keys are exactly the cells that are an endpoint of some bridge, and each set holds exactly the bridges ending there |
| ScanAndPrint.CountIsMultiplicity | scan_and_print.py:84-88 | counting a cell over the starts or ends is its multiplicity there |
| ScanAndPrint.EndsCounted | scan_and_print.py:84-93 | both endpoints of a bridge have a count of at least 1 |
| ScanAndPrint.CountInto | scan_and_print.py:84-88 | each loop adds to every cell's count the number of times it occurs, and adds exactly the cells that occur |
| ScanAndPrint.FindConnectedness | scan_and_print.py:80-95 | a bridge's score is the number of starts and ends at its start cell plus that number at its end cell, at least 2 |
| ScanAndPrint.ScoreBridges | scan_and_print.py:91-93 | from correct counts, each score is the two endpoint degrees added, at least 2 |
| ScanAndPrint.LoadUpdate | scan_and_print.py:177-179 | changing one bridge's planks changes an island's load only when the bridge ends there |
| ScanAndPrint.LoadZero | scan_and_print.py:265 | with no planks placed, every load is 0 |
| ScanAndPrint.PendingUpdate | scan_and_print.py:181-186 | changing one counter changes the number of unsatisfied islands by whether that counter is, and was, non-zero |
| ScanAndPrint.PendingZero | scan_and_print.py:136-138 | no unsatisfied island means every counter is 0 |
| ScanAndPrint.PendingAll | scan_and_print.py:30 | when every counter is non-zero, all islands are unsatisfied |
| ScanAndPrint.OccupiedPlace | scan_and_print.py:171-172 | placing a bridge adds exactly its interior cells to the occupied cells |
| ScanAndPrint.ApartPlace | scan_and_print.py:153-172 | a bridge whose cells are free can be placed without two placed bridges sharing a cell |
| ScanAndPrint.ShiftBack | scan_and_print.py:204-205 | adding back the planks undoes subtracting them from both endpoint counters |
| ScanAndPrint.PlaceTally | scan_and_print.py:177-179 | after placing, each counter is still the island's number minus its load |
| ScanAndPrint.PlaceKeeps | scan_and_print.py:171-186 | placing keeps the tally and the cell separation, grows the occupied set by the bridge's cells, and lowers the unsatisfied count by each endpoint that reaches 0 |
| ScanAndPrint.Search.constructor | scan_and_print.py:24-34 | the search starts from the given tables with no occupied cell |
| ScanAndPrint.Search.Blocked | scan_and_print.py:153-154 | a bridge is blocked iff one of its interior cells is occupied |
| ScanAndPrint.Search.Occupy | scan_and_print.py:171-172 | occupying adds exactly the bridge's interior cells |
| ScanAndPrint.Search.Free | scan_and_print.py:208-210 | freeing removes exactly the bridge's interior cells |
| ScanAndPrint.Search.Backtrack | scan_and_print.py:124-223 | True when the counter is 0; True only for a solution (every island carries its number, no two placed bridges share a cell); on failure counters, planks and occupied cells are as on entry |
| ScanAndPrint.Search.TryPlanks | scan_and_print.py:174-206 | trying min(3, remaining at start, remaining at end) down to 1 never drives a counter below 0, and a failure restores counters, planks and occupied cells |
| ScanAndPrint.Search.TryPlank | scan_and_print.py:176-206 | one plank count: success means a solution; failure restores both counters and resets the bridge to 0 |
| ScanAndPrint.Search.Place | scan_and_print.py:177-179 | the bridge gets p planks and both endpoint counters drop by p |
| ScanAndPrint.Search.Unplace | scan_and_print.py:204-206 | both endpoint counters rise by p and the bridge returns to 0 |
| ScanAndPrint.Solve | scan_and_print.py:11-34 | main's pipeline: legal bridges with their interiors, every bridge ordered once by ascending connectedness with ties in id order, planks within 0..3; a True result is a solution, a False one leaves every bridge at 0 |
| ScanAndPrint.Prepared | scan_and_print.py:16-34 | the tables main builds satisfy the search's entry invariant, and the initial count is the number of unsatisfied islands |
| ScanAndPrint.PreparedShape | scan_and_print.py:16-24 | the tables main builds have duplicate-free bridge interiors, duplicate-free island keys, and an order that lists every bridge once |
| Cryptarithm.StringToArray | A1/cryptoarith.py:30-39 | one index per letter, each pointing to the first occurrence of that letter; the old variables stay as a prefix; only new letters of the word are appended; duplicate-free stays duplicate-free |
| Cryptarithm.Lookup | A1/cryptoarith.py:33-35 | the scan stops at the first occurrence of the letter, or at the end when it is absent |
| Cryptarithm.NumberIsPositional | A1/cryptoarith.py:98-102 | the Horner value equals Σ digit × 10^position, most significant first, and 0 for no letters |
| Cryptarithm.NumberBounds | A1/cryptoarith.py:98-102 | with digits 0..9, the value of an n-letter word lies below 10^n, and at or above 10^(n−1) when the leading digit is non-zero |
| Cryptarithm.GetNum | A1/cryptoarith.py:98-102 | get_num computes the word's decimal value |
| Cryptarithm.CheckSolution | A1/cryptoarith.py:73-79 | False when any leading letter is 0; otherwise True exactly when the two addends sum to the result |
| Cryptarithm.EnumerateSpec | A1/cryptoarith.py:57-68 | the assignments checked from a prefix are exactly its extensions by distinct digits 0..9 to every variable that pass the check |
| Cryptarithm.BranchesSpec | A1/cryptoarith.py:62-68 | the digit loop from d on covers exactly those extensions whose next digit is at least d |
| Cryptarithm.Unused | A1/cryptoarith.py:63-66 | the inner while loop decides whether d is unused among the first k values |
| Cryptarithm.Search | A1/cryptoarith.py:57-68 | search collects, in order, exactly the enumerated solutions from the current prefix, and leaves the prefix as it was |
| Cryptarithm.TryDigits | A1/cryptoarith.py:62-68 | the digit loop collects the solutions of every unused digit in turn |
| Cryptarithm.TryDigit | A1/cryptoarith.py:63-68 | a used digit adds nothing; an unused one adds the solutions that extend the prefix by it |
| Cryptarithm.NumberIsWordValue | A1/cryptoarith.py:98-102 | the index-based value of a word equals its value under the letter-to-digit map |
| Cryptarithm.Solve | A1/cryptoarith.py:12-24 | the variables are the puzzle's letters, each once, and the solutions collected are exactly the injective digit maps under which word1 + word2 = word3 with no leading zero |
| Cryptarithm.SameSolutions | A1/cryptoarith.py:57-79 | a complete assignment passes the index-based check iff it solves the puzzle letter by letter |
| Cryptarithm.Interned | A1/cryptoarith.py:15-18 | after interning the three words in turn, every index still points to its letter, and the variables are exactly the puzzle's letters |
| EarlyBridges.Bridge.constructor | bridge.py:2-16 | a new bridge stores id, start, end and direction unchanged, with 0 planks, not marked, and its interior cells as indices |
| EarlyIslands.Island.constructor | island.py:2-6 | a new island stores x, y and number and lists no bridge |
| EarlyIslands.Island.AddBridge | island.py:8-9 | add_bridge appends the id as the last element and keeps the earlier ones; x, y and number are constants |

## Left out

- Input and output are not modelled:
  - `scan_map` and `scan_puzzle`, which read stdin; the grid and the three words are parameters instead;
  - all `print_solution` functions;
  - the debug prints;
  - `main`'s timing with `time.time`.

  `Cryptarithm.Solve` collects the solutions that `search` prints.
- Unused leftovers are not modelled:
  - `island.max` (A1/hashi.py:89);
  - `mark_occupied`;
  - `mark_island_bridges_done` (never called);
  - airplane.py's `forward_check` (its only call is commented out);
  - the `heapq` and `copy` imports;
  - scan_and_print's unused `bridges_to_islands`/`islands_to_bridges` parameters.
- scan_and_print.py's `find_bridge_connections` is not modelled on its own, because it is never called there. The same function in A1/hashi.py is `HashiBuild.FindBridgeConnections`.
- airplane.py's `find_bridges`, `find_islands`, `find_island_bridges` and `find_bridge_crossings` are the same code as A1/hashi.py's, so `Airplane.Preprocess` reuses the `HashiBuild` members.
- Crashes in airplane.py are not modelled. airplane.py appends to, and reads, `bridge.crossing`, which no Bridge class defines; the model uses the `crossings` list. Once `place_bridge` assigns the `done` flag, a later `island.done()` call would invoke a boolean. The model keeps the flag in `done` and lets the island tests use A1/bridge.py's meaning (`minimum == maximum`).
- The initial plank count 0 and cleared `done` flag are this model's assumption. In airplane.py, `find_connectedness` (A1/airplane.py:265) and `print_solution` (A1/airplane.py:308) read `bridge.planks` before any `place_bridge` sets it, which raises. Also, `if current_bridge.done:` (A1/airplane.py:340) tests the bound method `done`, which is always true until `place_bridge` assigns the attribute. The model tests the flag instead.
- The Bridge and Island classes disagree between files, and the model does not reconcile them. Each solver is modelled against the fields it reads and writes.
- Termination of the `while changes_made` loops in both `initial_forward_check`s is not modelled. Ranges can go negative, and A1/hashi.py's loop never stops on an empty range. The loops take a `fuel` bound, and only properties at exit are proved.
  - `Hashi.Board.InitialForwardCheck`: `converged` reports a pass with no change.
  - `Airplane.Board.InitialForwardCheck`: the settled property is stated for a loop that ended before its fuel.
- Hashi.Board.Backtrack: True implies only that the counter is 0, not that the bridges form a solution. The ranges saved for crossed bridges are the current bridge's ranges (A1/hashi.py:245). The counter only counts done-status changes of the end islands of the bridge being placed or removed. So the counter need not match the board; no claim of solution correctness is made.
- Airplane.Board.TryPlanks and Airplane.Board.Branch: propagation that succeeds narrows ranges that are not restored when the recursion below fails (A1/airplane.py:371-393). Likewise, the crossed bridges' saved ranges are the current bridge's (A1/airplane.py:354). The contracts state what is restored, and that bridges the search does not visit or cross keep their planks and flags and only narrow; they say nothing about the bridges it does visit or cross, and do not claim full rollback.
- The counters in A1/hashi.py's `place_bridge` and `remove_bridge` follow the code. Placing counts an endpoint down when it becomes done, and removing counts it up when it stops being done. Placing never counts up, even when forcing a crossed bridge to 0 undoes a done island.
- Solution uniqueness, completeness of the searches and optimality are not claimed; the code promises none of them.
- Cryptarithm.GetNum and Cryptarithm.Number: the numpy `int32` overflow of long words is not modelled; values are unbounded integers.
- Cryptarithm.StringToArray returns a sequence of indices rather than a numpy array, and a new variable list rather than appending in place.
