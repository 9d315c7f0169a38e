# Supermarket Markov simulation: A* path finder and customer simulation

This project models the core of the supermarket Markov-chain simulation in Dafny:

- **The A* path finder** (`path_finder.py`). One query parses a store layout into a grid of mutable cells. It then finds the start cell and the end cell. An inefficient shopper's end cell is drawn at random inside the target zone's box. For such a shopper the query also extends the caller's obstacle list in place. Finally it pops cells from an open list into a closed list, relaxing the neighbours of each popped cell. The query stops when the end cell is popped, and the route is read back through the parent links. If the open list runs dry, there is no route.
- **The customer simulation** (`supermarket_simulation.py`). Customers move between store locations once a minute. A supermarket object does four things each minute: it advances its clock, admits a random number of new customers with consecutive ids, logs one row per customer present, and lets the customers at the checkout go.
- **The constants** (`config.py`): location symbols, the layout, the zone boxes, the obstacle list, the arrival rate and the duration.

Files:

- `grid.dfy` (module `Grid`): pure values.
  - Positions, boxes, Manhattan distance.
  - Splitting text at newlines.
  - The row-major symbol scan.
  - The bounded randint retry for approximate targets.
  - The zone table as an ordered key list.
- `config.dfy` (module `Config`): the constants, with facts about them. Examples: the layout is a 12 x 20 rectangle, the entrance and exit are unique, and every zone box fits the layout.
- `path_finder.dfy` (module `PathFinding`):
  - the `Cell` class, whose g, h, f and parent fields are updated in place;
  - the `SymbolList` class, the caller's obstacle list, which is aliased and extended in place;
  - the `PathFinder` class;
  - the query `FindPath`, which is the source's `main`.
- `supermarket.dfy` (module `Simulation`):
  - the `Customer` and `Supermarket` classes;
  - the HH:MM clock;
  - the checkout filter;
  - the 20-minute run.

Randomness is passed in from outside:

- `rand(i, lo, hi)` is the answer of the i-th `randint(lo, hi)` call. An approximate-target attempt k uses call 2k for the column and call 2k + 1 for the row.
- A customer's move is the index of the column label it draws.
- The number of arrivals and the generated names are parameters.

The open list is a heap in the source. Relaxing a neighbour lowers its g and f in place without restoring the heap order, so a pop need not return the cell of least f. The model pops an arbitrary open cell, and every property proved holds for any pop order. The main invariant of the search is that every open cell has a parent chain back to the start cell. Each link in the chain goes to an adjacent closed cell whose cost is one less, and every cell except the start is walkable. When the end cell is popped, reading its chain backwards gives a route from the start to the end.

## Model

| member | source | states |
|---|---|---|
| Grid.ManhattanMetric | data_science/supermarket_markov_simulation/path_finder.py:111-116 | The heuristic is symmetric, is zero exactly for equal cells, and satisfies the triangle inequality |
| Grid.ManhattanConsistent | data_science/supermarket_markov_simulation/path_finder.py:111-116 | The heuristic is consistent: one step changes the distance to any target by at most one |
| Grid.StepsAtLeastManhattan | data_science/supermarket_markov_simulation/path_finder.py:111-116 | The heuristic is admissible: a path of unit steps is never shorter than the Manhattan distance between its ends |
| Grid.SplitLines | data_science/supermarket_markov_simulation/path_finder.py:58-59 | Splitting a text at newlines always gives at least one row |
| Grid.SplitLinesHasNoNewlines | data_science/supermarket_markov_simulation/path_finder.py:58-59 | No row of a split contains a newline |
| Grid.SplitPrefix | data_science/supermarket_markov_simulation/path_finder.py:58-59 | A newline-free prefix joins the first row of the split of the rest |
| Grid.SplitJoin | data_science/supermarket_markov_simulation/path_finder.py:58-59 | Splitting newline-joined rows without newlines gives the rows back |
| Grid.JoinSplit | data_science/supermarket_markov_simulation/path_finder.py:58-59 | Joining the pieces of a split with newlines gives the text back |
| Grid.JoinLines | data_science/supermarket_markov_simulation/path_finder.py:58-59 | Joining starts with the first row, followed by a newline when more rows follow; JoinSplit and SplitJoin pin it down as the inverse of splitting |
| Grid.LastInRow | data_science/supermarket_markov_simulation/path_finder.py:75-83 | Any column found lies below the scan bound and holds the symbol; LastInRowSpec states that it is the last one |
| Grid.LastMatch | data_science/supermarket_markov_simulation/path_finder.py:74-83 | Any cell found lies in the first k rows, on the layout, and holds the symbol; LastMatchSpec states that it is the last one |
| Grid.ScanUpTo | data_science/supermarket_markov_simulation/path_finder.py:74-83 | Midway through row r, any cell found is on the layout, holds the symbol and comes before column c of row r |
| Grid.ApproxTargetFrom | data_science/supermarket_markov_simulation/path_finder.py:92-104 | The retry loop from attempt k: the first draw that is not a zone cell, or nothing after attempt 500. ApproxTargetFromSpec states its contract |
| Grid.ApproxTarget | data_science/supermarket_markov_simulation/path_finder.py:92-104 | The retry loop from the first attempt; DrawTarget is proved to answer its cell |
| Grid.LastInRowSpec | data_science/supermarket_markov_simulation/path_finder.py:75-83 | Within one row, the scan finds nothing exactly when no column holds the symbol; otherwise it finds the last column that holds it |
| Grid.LastMatchSpec | data_science/supermarket_markov_simulation/path_finder.py:74-83 | The row-major scan finds nothing exactly when no cell holds the symbol; otherwise it finds a cell holding it with no holder after it |
| Grid.UniqueSymbolFound | data_science/supermarket_markov_simulation/path_finder.py:74-83 | When exactly one cell holds a symbol, the scan finds that cell |
| Grid.DrawInBox | data_science/supermarket_markov_simulation/path_finder.py:94-95 | Each draw of a column and a row lands inside the zone box and on the layout |
| Grid.ApproxTargetFromSpec | data_science/supermarket_markov_simulation/path_finder.py:92-104 | The retry loop fails exactly when every remaining attempt, up to attempt 500, draws a cell of the zone itself; otherwise its target is inside the box, is not a zone cell, and every earlier attempt was rejected |
| Grid.FullBoxNeverResolves | data_science/supermarket_markov_simulation/path_finder.py:92-104 | If a box contains only the zone's own symbol, the retry loop fails whatever the draws |
| Grid.LookupZone | data_science/supermarket_markov_simulation/path_finder.py:91 | The lookup fails exactly when no entry has the key; any box it finds is registered under that key |
| Grid.LookupFirst | data_science/supermarket_markov_simulation/config.py:43-51 | A key's lookup answers the box of its first entry |
| Grid.KeysExcept | data_science/supermarket_markov_simulation/path_finder.py:68 | The skipped key never appears in the extension; KeysExceptSpec states exactly which keys do |
| Grid.KeysExceptSpec | data_science/supermarket_markov_simulation/path_finder.py:68 | The extension lists exactly the keys other than the skipped one, and has no more entries than the table |
| Config.ValueRoundTrip | data_science/supermarket_markov_simulation/config.py:5-16 | Reading a location's symbol back gives the location |
| Config.ValuesDistinct | data_science/supermarket_markov_simulation/config.py:5-16 | Distinct locations have distinct symbols |
| Config.MarketShape | data_science/supermarket_markov_simulation/config.py:29-42 | The layout is a 12 x 20 rectangle with no newlines inside its rows |
| Config.MarketParses | data_science/supermarket_markov_simulation/config.py:29-42 | Splitting the stripped layout text at newlines gives the twelve rows |
| Config.AbsentFromRows | data_science/supermarket_markov_simulation/config.py:29-42 | A symbol missing from a band of rows is held by no cell of that band |
| Config.NoDoorsAboveRow11 | data_science/supermarket_markov_simulation/config.py:30-40 | Neither the entrance nor the exit appears above the bottom wall |
| Config.EntranceUnique | data_science/supermarket_markov_simulation/config.py:41 | The entrance is the single cell at row 11, column 16, and the scan finds it |
| Config.ExitUnique | data_science/supermarket_markov_simulation/config.py:41 | The exit is the single cell at row 11, column 3, and the scan finds it |
| Config.StoreLocationsInside | data_science/supermarket_markov_simulation/config.py:43-51 | Every zone box indexes the layout |
| Config.StandingCellAt | data_science/supermarket_markov_simulation/config.py:43-51 | A first-registered zone whose box contains a non-zone cell has a box where a draw can succeed |
| Config.InteriorBoxHasStandingCell | data_science/supermarket_markov_simulation/config.py:29-51 | For checkout, dairy, drinks, fruit and spices, the zone's box contains a cell outside the zone |
| Config.UnwalkablesIsBackground | data_science/supermarket_markov_simulation/config.py:53 | The initial obstacle list is the background symbol alone |
| Config.InefficientObstacles | data_science/supermarket_markov_simulation/path_finder.py:67-68 | An inefficient query on this store adds C, D, L, F, G and S to the obstacles, in table order |
| Config.ArrivalsPerMinute | data_science/supermarket_markov_simulation/config.py:25 | Since the upper bound of the draw is exclusive, a minute brings 0, 1 or 2 arrivals |
| PathFinding.ParseLayout | data_science/supermarket_markov_simulation/path_finder.py:58-59 | A text layout gives at least one row, no row holds a newline, and joining the rows gives the text back; a layout already split is taken as is |
| PathFinding.ExactEnd | data_science/supermarket_markov_simulation/path_finder.py:86-89 | The end is found by exact symbol for the entrance, the exit and every efficient query |
| PathFinding.ObstacleExtension | data_science/supermarket_markov_simulation/path_finder.py:67-68 | An efficient query adds nothing; an inefficient one never adds the exit symbol E |
| PathFinding.Resolve | data_science/supermarket_markov_simulation/path_finder.py:70-109 | A successful resolution gives a start on the layout holding the start symbol and an end on the layout; ResolveSpec states the rest |
| PathFinding.ResolveSpec | data_science/supermarket_markov_simulation/path_finder.py:70-109 | On success, the start is the last cell holding the start symbol. An exact end is the last cell holding the end symbol; an approximate end lies in the zone's box and is not a zone cell. Resolution fails exactly when a start or exact end symbol is missing, the zone is unknown, or every draw hits the zone |
| PathFinding.Cell.constructor | data_science/supermarket_markov_simulation/path_finder.py:23-35 | A new cell has its position and symbol, cost 0 and no parent |
| PathFinding.ElemsSize | data_science/supermarket_markov_simulation/path_finder.py:61-64 | A row contributes at most its length in cells |
| PathFinding.CellsOfMembers | data_science/supermarket_markov_simulation/path_finder.py:61-64 | The grid's cell set holds exactly the cells at grid positions |
| PathFinding.CellsOfSize | data_science/supermarket_markov_simulation/path_finder.py:61-64 | A grid has at most rows x width cells |
| PathFinding.SymbolList.constructor | data_science/supermarket_markov_simulation/path_finder.py:51 | The obstacle list holds the given symbols |
| PathFinding.SymbolList.Extend | data_science/supermarket_markov_simulation/path_finder.py:68 | Extending appends the new symbols after the old ones, in place |
| PathFinding.BuildGrid | data_science/supermarket_markov_simulation/path_finder.py:58-64 | Each layout position gets one fresh cell, which knows its position and symbol and starts pristine |
| PathFinding.DrawStep | data_science/supermarket_markov_simulation/path_finder.py:94-99 | Attempt k's drawn cell is on the grid. It is the target if it is not a zone cell; otherwise the later attempts decide |
| PathFinding.DrawTarget | data_science/supermarket_markov_simulation/path_finder.py:92-104 | The retry loop answers the cell at the target that the draws define, or nothing after 501 rejected draws |
| PathFinding.ScanEnds | data_science/supermarket_markov_simulation/path_finder.py:74-83 | The scan binds the last cell holding the start symbol and, for exact ends, the last cell holding the end symbol |
| PathFinding.FindStartEnd | data_science/supermarket_markov_simulation/path_finder.py:70-109 | Ends and errors agree with resolution, including which error is raised first |
| PathFinding.NoDupConcat | data_science/supermarket_markov_simulation/path_finder.py:168-169 | Two lists without repeats that share nothing concatenate without repeats |
| PathFinding.AppendFresh | data_science/supermarket_markov_simulation/path_finder.py:168-169 | Pushing a cell that is neither open nor closed keeps the open list free of repeats and apart from the closed list |
| PathFinding.Pushed | data_science/supermarket_markov_simulation/path_finder.py:154-169 | The pushed neighbours are exactly those that are walkable, not closed and not yet open |
| PathFinding.PushedSnoc | data_science/supermarket_markov_simulation/path_finder.py:168-169 | One more neighbour adds itself to the pushed list exactly when it qualifies |
| PathFinding.PushedNoDup | data_science/supermarket_markov_simulation/path_finder.py:154-169 | Pushing keeps the open list free of repeats and apart from the closed list |
| PathFinding.PushStep | data_science/supermarket_markov_simulation/path_finder.py:161-169 | One loop turn pushes the i-th neighbour exactly when it qualifies; the "already open" test sees only the original open list |
| PathFinding.RouteAtLeastDistance | data_science/supermarket_markov_simulation/path_finder.py:111-142 | A returned route has at least as many steps as the Manhattan distance between its ends |
| PathFinding.RouteToObstacle | data_science/supermarket_markov_simulation/path_finder.py:155-156 | A route can end on an obstacle only if it has length one and starts there |
| PathFinding.Reverse | data_science/supermarket_markov_simulation/path_finder.py:141 | Reversal keeps the length and mirrors the positions |
| PathFinding.PathFinder.constructor | data_science/supermarket_markov_simulation/path_finder.py:46-65 | The path finder holds the grid, the caller's obstacle list, the query's parameters and the resolved ends |
| PathFinding.PathFinder.Heuristic | data_science/supermarket_markov_simulation/path_finder.py:111-116 | The heuristic is zero exactly when the two cells share a position; ManhattanMetric, ManhattanConsistent and StepsAtLeastManhattan give its metric facts |
| PathFinding.PathFinder.Offset | data_science/supermarket_markov_simulation/path_finder.py:121-128 | The neighbour in one direction is exactly the grid cell at that offset, if it exists |
| PathFinding.PathFinder.GetNeighbors | data_science/supermarket_markov_simulation/path_finder.py:118-129 | At most four neighbours, none twice, each a grid cell at distance one, listed in the order row - 1, row + 1, column - 1, column + 1 |
| PathFinding.PathFinder.NeighborsInOrder | data_science/supermarket_markov_simulation/path_finder.py:120-128 | The four bounds-checked appends list the neighbours in strictly increasing direction: row - 1, row + 1, column - 1, column + 1 |
| PathFinding.PathFinder.GetNeighborsComplete | data_science/supermarket_markov_simulation/path_finder.py:118-129 | Every grid cell at distance one is a neighbour |
| PathFinding.PathFinder.NeighborsComplete | data_science/supermarket_markov_simulation/path_finder.py:120-128 | The four offsets together cover exactly the grid cells at distance one |
| PathFinding.PathFinder.RelaxAt | data_science/supermarket_markov_simulation/path_finder.py:155-169 | If the i-th neighbour qualifies, it gets cost g + 1, its heuristic, f = g + h and the current cell as parent. It is pushed if it was not open. The other neighbours are untouched |
| PathFinding.PathFinder.RelaxEach | data_science/supermarket_markov_simulation/path_finder.py:154-169 | Every qualifying neighbour is relaxed through the current cell, the new open cells are pushed in order, and the open list stays free of repeats and apart from the closed list |
| PathFinding.PathFinder.ChainStep | data_science/supermarket_markov_simulation/path_finder.py:161-167 | A walkable cell linked, one step dearer, to a chained closed neighbour is itself chained |
| PathFinding.PathFinder.ChainAgree | data_science/supermarket_markov_simulation/path_finder.py:154-169 | A chain depends only on the links of its own cell and of closed cells |
| PathFinding.PathFinder.ChainMono | data_science/supermarket_markov_simulation/path_finder.py:193-194 | Closing more cells keeps every chain |
| PathFinding.PathFinder.CloseKeepsTree | data_science/supermarket_markov_simulation/path_finder.py:193-194 | Closing more cells keeps every open cell of a smaller open list chained |
| PathFinding.PathFinder.CloseOne | data_science/supermarket_markov_simulation/path_finder.py:193-194 | A pop into the closed list keeps the open list free of repeats and apart from the closed list. It keeps every open cell chained and leaves the popped cell chained |
| PathFinding.PathFinder.TreeAfterRelax | data_science/supermarket_markov_simulation/path_finder.py:154-169 | Relaxing from a chained closed cell keeps every open cell chained |
| PathFinding.PathFinder.EvaluateNeighbors | data_science/supermarket_markov_simulation/path_finder.py:144-169 | Relaxes exactly the qualifying neighbours, leaves the obstacle list unchanged, pushes the new open cells in order, and keeps every open cell chained back to the start |
| PathFinding.PathFinder.ReachedEnd | data_science/supermarket_markov_simulation/path_finder.py:131-142 | For a chained cell, the path read back through the parents and reversed is a route from the start cell to that cell. It has g + 1 positions, and each cell's parent is the one before it |
| PathFinding.PathFinder.ChainIsRoute | data_science/supermarket_markov_simulation/path_finder.py:136-142 | A parent chain read back to front is a route of adjacent grid cells, walkable after the first |
| PathFinding.PathFinder.NoRoute | data_science/supermarket_markov_simulation/path_finder.py:189-202 | When the closed set holds the start but not the end, and every walkable neighbour of a closed cell is closed, no route leads from the start to the end |
| PathFinding.EnclosedAfterPop | data_science/supermarket_markov_simulation/path_finder.py:193-194 | After a pop and the pushes of its walkable, unclosed neighbours, every walkable neighbour of a closed cell is open or closed, and no open cell other than the popped one is lost |
| PathFinding.PathFinder.Search | data_science/supermarket_markov_simulation/path_finder.py:189-202 | Any route returned leads from the start cell to the end cell through walkable cells and has endCell.g + 1 positions. If the open list runs dry, no route from the start cell to the end cell exists. There are at most as many pops as cells, and the obstacle list does not change |
| PathFinding.Create | data_science/supermarket_markov_simulation/path_finder.py:57-68 | Fails exactly as resolution does, leaving the obstacle list alone. On success the cells are fresh and pristine, the ends are the resolved ones, and an inefficient query has extended the caller's list in place |
| PathFinding.RemoveAt | data_science/supermarket_markov_simulation/path_finder.py:193 | A pop leaves the other open cells, each once |
| PathFinding.CloseShrinks | data_science/supermarket_markov_simulation/path_finder.py:194 | Each pop leaves one cell fewer unclosed, so the search terminates |
| PathFinding.ShippedStoreAccepted | data_science/supermarket_markov_simulation/path_finder.py:206-213 | The query the source runs on MARKET and STORE_LOCATIONS meets FindPath's layout requirements for any end symbol: MARKET parses to its twelve rows, they form a rectangle, and the end zone's box lies inside them |
| PathFinding.FindPath | data_science/supermarket_markov_simulation/path_finder.py:172-202 | The query fails exactly as resolution does. Otherwise it extends the obstacle list as configured, pops at most rows x width times. Any route found leads from the resolved start to the resolved end, and when none is found no such route exists |
| Simulation.Customer.constructor | data_science/supermarket_markov_simulation/supermarket_simulation.py:15-23 | A new customer has its id and name and stands at the entrance, which is also its previous location |
| Simulation.Customer.NextLocation | data_science/supermarket_markov_simulation/supermarket_simulation.py:37-43 | The old location becomes the previous one, and the new location is a column label of the matrix |
| Simulation.Customer.IsActive | data_science/supermarket_markov_simulation/supermarket_simulation.py:45-48 | A customer is active unless at the checkout; Active's contract states the filter built on it |
| Simulation.DigitChar | data_science/supermarket_markov_simulation/supermarket_simulation.py:65 | A digit value is shown as its decimal character |
| Simulation.Digits | data_science/supermarket_markov_simulation/supermarket_simulation.py:65 | A number is shown as one or more decimal digits, exactly one when it is below 10, with a leading zero only for 0 itself |
| Simulation.DigitsRoundTrip | data_science/supermarket_markov_simulation/supermarket_simulation.py:65 | Reading the decimal digits back gives the number |
| Simulation.Pad2 | data_science/supermarket_markov_simulation/supermarket_simulation.py:65 | Zero padding gives at least two digits, exactly two below 100, and keeps the value; the first digit is 0 exactly when the number is below 10 |
| Simulation.FormatClock | data_science/supermarket_markov_simulation/supermarket_simulation.py:62-65 | The clock is digits, a colon and two digits, five characters below 100 hours. The hour field reads m / 60 and the minute field m % 60, and the clock starts with 0 exactly below ten hours |
| Simulation.ClockRoundTrip | data_science/supermarket_markov_simulation/supermarket_simulation.py:62-65 | Parsing the clock gives back floor(m / 60) * 60 + m % 60 = m |
| Simulation.ClockInjective | data_science/supermarket_markov_simulation/supermarket_simulation.py:62-65 | Different minute counts show different clocks |
| Simulation.Active | data_science/supermarket_markov_simulation/supermarket_simulation.py:93-95 | The filter keeps exactly the customers not at the checkout |
| Simulation.ActiveSubsequence | data_science/supermarket_markov_simulation/supermarket_simulation.py:95 | The filter only deletes customers; the rest keep their order |
| Simulation.SubsequenceSkip | data_science/supermarket_markov_simulation/supermarket_simulation.py:95 | A subsequence stays one when the list grows at the end |
| Simulation.SubsequenceDropLast | data_science/supermarket_markov_simulation/supermarket_simulation.py:95 | Dropping the last kept customer leaves a subsequence |
| Simulation.SubsequenceMembers | data_science/supermarket_markov_simulation/supermarket_simulation.py:95 | A subsequence only holds customers of the list |
| Simulation.SubsequenceIncreasing | data_science/supermarket_markov_simulation/supermarket_simulation.py:95 | Filtering keeps ids increasing |
| Simulation.SubsequenceDistinct | data_science/supermarket_markov_simulation/supermarket_simulation.py:95 | Filtering keeps the list free of repeats |
| Simulation.ActiveIdempotent | data_science/supermarket_markov_simulation/supermarket_simulation.py:93-95 | Letting the checkout customers go twice is the same as once |
| Simulation.Supermarket.constructor | data_science/supermarket_markov_simulation/supermarket_simulation.py:55-60 | A new store is empty at minute 0 with next id 0 and an empty log |
| Simulation.Supermarket.GetTime | data_science/supermarket_markov_simulation/supermarket_simulation.py:62-65 | The store's clock is two digit fields around a colon: the hour field reads minutes / 60 and the minute field minutes % 60. It reads back as its minute count, in five characters below 100 hours |
| Simulation.Supermarket.NextMinute | data_science/supermarket_markov_simulation/supermarket_simulation.py:67-71 | The clock advances by one. Every customer moves once by its own draw, and the list, the ids and the log stay |
| Simulation.Supermarket.AddNewCustomers | data_science/supermarket_markov_simulation/supermarket_simulation.py:73-89 | n fresh customers join at the end, at the entrance, with ids lastId .. lastId + n - 1 and the given names. lastId grows by n; ids stay increasing and no customer appears twice |
| Simulation.Supermarket.RemoveExitingCustomers | data_science/supermarket_markov_simulation/supermarket_simulation.py:93-95 | The list becomes the active customers in their order. Nobody stays at the checkout, nobody is added, and ids stay increasing |
| Simulation.Supermarket.PrintCustomers | data_science/supermarket_markov_simulation/supermarket_simulation.py:97-118 | One row per customer is appended in list order (clock, id, name, location), and earlier rows are kept |
| Simulation.Supermarket.Tick | data_science/supermarket_markov_simulation/supermarket_simulation.py:124-130 | One minute runs in the source's order. The clock advances by one and every waiting customer moves by its draw. n fresh customers join at the entrance with ids lastId .. lastId + n - 1 and lastId grows by n. Then the log gains one (clock, id, name, location) row per customer present, in list order, and the list becomes the active ones among them. Ids stay increasing, nobody is listed twice and nobody is left at the checkout |
| Simulation.Supermarket.MoveAndAdmit | data_science/supermarket_markov_simulation/supermarket_simulation.py:125-128 | The first half of a minute: the clock advances, every waiting customer moves by its draw, and n fresh customers join at the entrance with consecutive ids; the log is untouched |
| Simulation.Supermarket.LogAndRelease | data_science/supermarket_markov_simulation/supermarket_simulation.py:129-130 | The second half: one row per customer present is logged with the current clock, then the list becomes the active ones, with the clock and lastId unchanged |
| Simulation.AppendFresh | data_science/supermarket_markov_simulation/supermarket_simulation.py:82-88 | Appending a new customer object keeps the list free of repeats |
| Simulation.AddedInOrder | data_science/supermarket_markov_simulation/supermarket_simulation.py:81-89 | Consecutive ids from the old lastId keep the list ordered and below the new lastId |
| Simulation.RunSimulation | data_science/supermarket_markov_simulation/supermarket_simulation.py:121-130 | After 20 minutes the clock shows 20, lastId is the total number of arrivals, ids increase along the list, and nobody remains at the checkout. The log holds, minute after minute, a block of rows stamped with that minute's clock, at least as many as that minute's arrivals, and every customer who ever arrived has a row at the entrance |
| Simulation.RunStep | data_science/supermarket_markov_simulation/supermarket_simulation.py:124-130 | One pass of the loop keeps the run's state one minute later: the clock and lastId advance by the minute and its arrivals, the list invariants hold, nobody is at the checkout, the new block of rows (at least the arrivals) is stamped with the new minute, and every arrival so far has an entrance row |
| Simulation.RunMinute | data_science/supermarket_markov_simulation/supermarket_simulation.py:124-130 | One minute logs at least as many rows as arrivals, keeps the earlier rows unchanged, stamps all new rows with the new minute, gives each arrival an entrance row, and advances the clock by one and lastId by the arrivals |
| Simulation.MinuteStamped | data_science/supermarket_markov_simulation/supermarket_simulation.py:102-107 | The rows one tick appends, one per customer present, all carry that tick's clock |
| Simulation.MinuteArrivals | data_science/supermarket_markov_simulation/supermarket_simulation.py:81-88 | Each customer who arrived in a tick has a row at the entrance among the rows that tick appends |
| Simulation.Stamps | data_science/supermarket_markov_simulation/supermarket_simulation.py:121-130 | The minute of every log row lies between 1 and the number of minutes run, and never decreases along the log |
| Simulation.LogStamps | data_science/supermarket_markov_simulation/supermarket_simulation.py:121-130 | Appending a block of rows stamped with the next minute turns a log stamped by `sizes` into one stamped by `sizes` plus that block, and keeps every earlier arrival's entrance row |
| Simulation.ArrivalsStayLogged | data_science/supermarket_markov_simulation/supermarket_simulation.py:121-130 | Appending rows keeps every arrival already logged at the entrance |

Helpers that state no property of the source have no row: `Simulation.Running` (the run loop's invariant, unfolded in RunSimulation's and RunStep's contracts), `PathFinding.OneMoreRow` (an arithmetic step of CellsOfSize), and `PathFinding.PathFinder.Direction` and `PathFinding.PathFinder.OrderedSnoc` (the neighbour order used by GetNeighbors).

## Left out

- Shortest routes: the heap is replaced by an arbitrary pop because in-place relaxation breaks the heap order. PathFinding.PathFinder.Search and PathFinding.FindPath therefore promise a valid route and a bounded number of pops, not a shortest route.
- Open and closed lists: the open list is passed and returned as a value rather than mutated in place. The closed list is a set, since it is only appended to and tested for membership.
- Cell equality: Python dataclass equality compares fields. Distinct cells differ in position, so the model uses object identity.
- Ordering: the `__lt__` ordering on f is not modelled.
- Layout requirements: the model requires a rectangular layout and, for an approximate end, the end zone's box inside the layout with its bounds in order. The source checks neither. It never checks row lengths: the neighbour test takes the width of row 0, so on a ragged layout it may raise an IndexError in `get_neighbors` when a later row is shorter, or silently never reach the columns of a longer row past row 0's width. It reads no zone box but the end zone's. A draw past the end of the layout raises an IndexError. A negative draw raises nothing: Python's negative index wraps to a cell on the far side of the layout, which the source accepts as the end whenever its symbol differs from the zone's. An inverted box (a lower bound above its upper bound) makes the standard library's `random.randint` raise a ValueError. The requirement is therefore stronger than the source, and these paths, the wrapped end cell among them, are not modelled. The shipped store meets it for every query (PathFinding.ShippedStoreAccepted).
- Missing cells: a missing start or end symbol leaves a local variable unbound in the source, an UnboundLocalError. The model reports it as StartNotFound or EndNotFound, in the same order of checks.
- The zone table is an ordered list of key and box pairs in dict insertion order. Duplicate keys, which a dict cannot hold, are not excluded.
- Simulation.Customer.NextLocation: does not model the probabilities or numpy's weighted choice. Any column label may be drawn, and the draw is a parameter.
- Transition matrix: the matrix is reduced to its column labels. The KeyError raised for a location with no matrix row is not modelled.
- Generated values: Faker names are parameters, and the number of arrivals is a parameter within the arrival rate.
- Output: console printing is left out. The pandas output table is a sequence of log rows, and the CSV loading and saving with its file-name search is not modelled.
- `Customer.__str__` only formats text for printing and is not modelled.
- The visualization and map-drawing files are not part of this model.
- The source's `main` returns None when no route exists; the model returns an Option.
- Simulation.FormatClock: the source takes the hour from the float `np.floor(minutes / 60)`, which is exact only while the minute count fits a double's 53-bit mantissa. The model uses exact integer division.
- Symbols: start, end and zone symbols are single characters. The source accepts any string, and a longer one simply matches no cell; that case cannot be expressed.
- Simulation.Supermarket.AddNewCustomers: the number of arrivals is a parameter within the arrival rate, so numpy's ValueError for an empty range (lower bound not below upper bound) is not modelled.
