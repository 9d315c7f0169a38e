/**
 * A* search over the store grid, the way the path finder runs one query:
 * parse the layout into fresh cells, resolve the start and end cells, extend
 * the caller's obstacle list for inefficient shoppers, then pop cells from
 * the open list into the closed list, relaxing each popped cell's
 * neighbours, until the end cell is popped (the route is read back through
 * the parent links) or the open list runs dry.
 *
 * The open list is a heap in the source, but relaxing a neighbour lowers its
 * g and f in place without restoring the heap order, so a pop need not
 * return the cell of least f. The model pops an arbitrary element of the
 * open list, and everything proved here holds for every choice of pop.
 */
module PathFinding {
  import opened Grid
  import Config

  /** What makes resolving a query's start or end cell fail. */
  datatype PathError =
    | NoStoreLocations      // the zone table is empty (ValueError)
    | UnknownZone(sym: char) // the end symbol has no zone box (KeyError)
    | TargetNotFound        // every draw hit the zone itself (ValueError)
    | StartNotFound         // no cell holds the start symbol (start_cell never bound)
    | EndNotFound           // no cell holds the end symbol (end_cell never bound)

  datatype Result<T> = Success(value: T) | Failure(error: PathError)

  /** The grid argument: a text of newline-separated rows, or rows already split. */
  datatype LayoutInput = Text(text: string) | Matrix(rows: Rows)

  function ParseLayout(layout: LayoutInput): (rows: Rows)
    ensures layout.Text? ==> |rows| >= 1 && NoNewlines(rows) && JoinLines(rows) == layout.text
  {
    match layout
    case Text(t) => SplitLinesHasNoNewlines(t); JoinSplit(t); SplitLines(t)
    case Matrix(rows) => rows
  }

  /** Entrance and exit targets, and every target of an efficient shopper, are found by exact symbol. */
  predicate ExactEnd(endSymbol: char, isEfficient: bool) {
    endSymbol == Config.Value(Config.Entrance) || endSymbol == Config.Value(Config.Exit) || isEfficient
  }

  /** The symbols an inefficient query adds to the obstacle list: every zone key but the exit's "E". */
  function ObstacleExtension(zones: Zones, isEfficient: bool): (extra: seq<char>)
    ensures 'E' !in extra
    ensures isEfficient ==> extra == []
  {
    if isEfficient then [] else KeysExcept(zones, 'E')
  }

  /**
   * The only zone box a query reads is the end zone's, and only for an
   * approximate target: that box indexes the layout.
   */
  predicate EndBoxInside(zones: Zones, rows: Rows, endSymbol: char, isEfficient: bool) {
    !ExactEnd(endSymbol, isEfficient) && LookupZone(zones, endSymbol).Some? ==>
      BoxInside(LookupZone(zones, endSymbol).value, rows)
  }

  /**
   * The start and end positions that resolution settles on, or the error it
   * raises, in the order the checks are made.
   */
  function Resolve(rows: Rows, startSymbol: char, endSymbol: char, zones: Zones,
                   isEfficient: bool, rand: RandInt): (r: Result<(Coord, Coord)>)
    requires Rectangular(rows) && EndBoxInside(zones, rows, endSymbol, isEfficient) && RandIntInRange(rand)
    ensures r.Success? ==> InBounds(rows, r.value.0) && rows[r.value.0.0][r.value.0.1] == startSymbol
    ensures r.Success? ==> InBounds(rows, r.value.1)
  {
    var start := LastMatch(rows, startSymbol, |rows|);
    if !ExactEnd(endSymbol, isEfficient) then
      if |zones| == 0 then Failure(NoStoreLocations)
      else match LookupZone(zones, endSymbol)
        case None => Failure(UnknownZone(endSymbol))
        case Some(box) =>
          assert BoxInside(box, rows);
          ApproxTargetFromSpec(rows, endSymbol, box, rand, 0);
          match ApproxTarget(rows, endSymbol, box, rand)
          case None => Failure(TargetNotFound)
          case Some(e) => if start.None? then Failure(StartNotFound) else Success((start.value, e))
    else if start.None? then Failure(StartNotFound)
    else match LastMatch(rows, endSymbol, |rows|)
      case None => Failure(EndNotFound)
      case Some(e) => Success((start.value, e))
  }

  /** `p` is the last cell in row-major order holding `sym`. */
  ghost predicate LastHolding(rows: Rows, sym: char, p: Coord) {
    InBounds(rows, p) && rows[p.0][p.1] == sym &&
    forall r, c :: 0 <= r < |rows| && 0 <= c < |rows[r]| && After(r, c, p) ==> rows[r][c] != sym
  }

  ghost predicate Holds(rows: Rows, sym: char) {
    exists r, c :: 0 <= r < |rows| && 0 <= c < |rows[r]| && rows[r][c] == sym
  }

  /**
   * What resolution promises: the start is the last cell holding the start
   * symbol; an exact end is the last cell holding the end symbol; an
   * approximate end lies in the zone's box and is not a cell of the zone.
   * It fails exactly when the start symbol is missing, the exact end symbol
   * is missing, or the zone table is empty, lacks the zone, or all draws
   * hit the zone.
   */
  lemma ResolveSpec(rows: Rows, startSymbol: char, endSymbol: char, zones: Zones,
                    isEfficient: bool, rand: RandInt)
    requires Rectangular(rows) && EndBoxInside(zones, rows, endSymbol, isEfficient) && RandIntInRange(rand)
    ensures var res := Resolve(rows, startSymbol, endSymbol, zones, isEfficient, rand);
      res.Success? ==>
        LastHolding(rows, startSymbol, res.value.0) &&
        InBounds(rows, res.value.1) &&
        (ExactEnd(endSymbol, isEfficient) ==> LastHolding(rows, endSymbol, res.value.1)) &&
        (!ExactEnd(endSymbol, isEfficient) ==>
          LookupZone(zones, endSymbol).Some? &&
          InBox(res.value.1, LookupZone(zones, endSymbol).value) &&
          rows[res.value.1.0][res.value.1.1] != endSymbol)
    ensures var res := Resolve(rows, startSymbol, endSymbol, zones, isEfficient, rand);
      res.Failure? <==>
        !Holds(rows, startSymbol) ||
        (ExactEnd(endSymbol, isEfficient) && !Holds(rows, endSymbol)) ||
        (!ExactEnd(endSymbol, isEfficient) &&
          (LookupZone(zones, endSymbol).None? ||
           (assert BoxInside(LookupZone(zones, endSymbol).value, rows);
            ApproxTarget(rows, endSymbol, LookupZone(zones, endSymbol).value, rand).None?)))
  {
    LastMatchSpec(rows, startSymbol, |rows|);
    LastMatchSpec(rows, endSymbol, |rows|);
    if !ExactEnd(endSymbol, isEfficient) && LookupZone(zones, endSymbol).Some? {
      var box := LookupZone(zones, endSymbol).value;
      assert BoxInside(box, rows);
      ApproxTargetFromSpec(rows, endSymbol, box, rand, 0);
    }
  }

  /**
   * A grid cell: immutable position and symbol, plus the scratch fields one
   * search writes: g (steps from the start), h (estimate to the end),
   * f = g + h, and the parent link on the best route found so far.
   */
  class Cell {
    const row: int
    const col: int
    const symbol: char
    var g: int
    var h: int
    var f: int
    var parent: Cell?

    constructor (row: int, col: int, symbol: char)
      ensures this.row == row && this.col == col && this.symbol == symbol
      ensures Pristine()
    {
      this.row, this.col, this.symbol := row, col, symbol;
      g, h, f, parent := 0, 0, 0, null;
    }

    /** The scratch fields hold nothing from any search. */
    predicate Pristine()
      reads this
    {
      g == 0 && h == 0 && f == 0 && parent == null
    }
  }

  function Pos(c: Cell): Coord {
    (c.row, c.col)
  }

  /** The cells of `grid` carry the symbols of `rows`, position by position. */
  predicate HasSymbols(grid: seq<seq<Cell>>, rows: Rows) {
    |grid| == |rows| &&
    (forall r :: 0 <= r < |grid| ==> |grid[r]| == |rows[r]|) &&
    forall r, c :: 0 <= r < |grid| && 0 <= c < |grid[r]| ==> grid[r][c].symbol == rows[r][c]
  }

  /** Each cell knows its own position. */
  predicate WellIndexed(grid: seq<seq<Cell>>) {
    forall r, c :: 0 <= r < |grid| && 0 <= c < |grid[r]| ==> Pos(grid[r][c]) == (r, c)
  }

  /** The cells of the first rows of a grid. */
  ghost function CellsOf(grid: seq<seq<Cell>>): set<Cell> {
    if |grid| == 0 then {}
    else CellsOf(grid[..|grid| - 1]) + Elems(grid[|grid| - 1])
  }

  ghost function Elems(s: seq<Cell>): set<Cell> {
    set x | x in s
  }

  lemma {:induction false} ElemsSize(s: seq<Cell>)
    ensures |Elems(s)| <= |s|
  {
    if |s| > 0 {
      var front := s[..|s| - 1];
      ElemsSize(front);
      assert s == front + [s[|s| - 1]];
      assert Elems(s) == Elems(front) + {s[|s| - 1]};
    }
  }

  /** `x` is the grid's cell at x's own position. */
  predicate IsGridCell(grid: seq<seq<Cell>>, x: Cell) {
    0 <= x.row < |grid| && 0 <= x.col < |grid[x.row]| && grid[x.row][x.col] == x
  }

  /** A well-indexed grid holds exactly the cells of CellsOf, each at its own position. */
  lemma {:induction false} CellsOfMembers(grid: seq<seq<Cell>>)
    requires WellIndexed(grid)
    ensures forall r, c :: 0 <= r < |grid| && 0 <= c < |grid[r]| ==> grid[r][c] in CellsOf(grid)
    ensures forall x :: x in CellsOf(grid) ==> IsGridCell(grid, x)
  {
    if |grid| > 0 {
      var k := |grid| - 1;
      var front := grid[..k];
      assert forall r :: 0 <= r < k ==> front[r] == grid[r];
      CellsOfMembers(front);
      forall x | x in CellsOf(grid) ensures IsGridCell(grid, x) {
        if x !in CellsOf(front) {
          assert x in grid[k];
          var c :| 0 <= c < |grid[k]| && grid[k][c] == x;
        }
      }
      forall r, c | 0 <= r < |grid| && 0 <= c < |grid[r]| ensures grid[r][c] in CellsOf(grid) {
        if r == k {
          assert grid[k][c] in Elems(grid[k]);
        }
      }
    }
  }

  /** The area step of CellsOfSize: a multiplication fact Z3 does not find inside the induction. */
  lemma OneMoreRow(k: nat, width: nat)
    ensures k * width + width == (k + 1) * width
  {
  }

  /** A grid whose rows are at most `width` long has at most |grid| x width cells. */
  lemma {:induction false} CellsOfSize(grid: seq<seq<Cell>>, width: nat)
    requires forall r :: 0 <= r < |grid| ==> |grid[r]| <= width
    ensures |CellsOf(grid)| <= |grid| * width
  {
    if |grid| > 0 {
      var k := |grid| - 1;
      var front := grid[..k];
      CellsOfSize(front, width);
      ElemsSize(grid[k]);
      assert |CellsOf(grid)| <= |CellsOf(front)| + |Elems(grid[k])|;
      OneMoreRow(k, width);
    }
  }

  /**
   * The caller's obstacle list. The path finder keeps a reference to the
   * same list and extends it in place, so the extension outlives the query.
   */
  class SymbolList {
    var items: seq<char>

    constructor (items: seq<char>)
      ensures this.items == items
    {
      this.items := items;
    }

    method Extend(more: seq<char>)
      modifies this
      ensures items == old(items) + more
    {
      items := items + more;
    }
  }

  /**
   * Builds a fresh cell for every layout position: each knows its position
   * and symbol and starts with pristine scratch fields, so nothing of an
   * earlier search survives into this one.
   */
  method BuildGrid(rows: Rows) returns (grid: seq<seq<Cell>>)
    ensures HasSymbols(grid, rows) && WellIndexed(grid)
    ensures forall r, c :: 0 <= r < |grid| && 0 <= c < |grid[r]| ==>
      fresh(grid[r][c]) && grid[r][c].Pristine()
  {
    grid := [];
    var r := 0;
    while r < |rows|
      invariant 0 <= r <= |rows| && |grid| == r
      invariant forall i :: 0 <= i < r ==> |grid[i]| == |rows[i]|
      invariant forall i, c :: 0 <= i < r && 0 <= c < |grid[i]| ==>
        Pos(grid[i][c]) == (i, c) && grid[i][c].symbol == rows[i][c] &&
        fresh(grid[i][c]) && grid[i][c].Pristine()
    {
      var line: seq<Cell> := [];
      var c := 0;
      while c < |rows[r]|
        invariant 0 <= c <= |rows[r]| && |line| == c
        invariant forall j :: 0 <= j < c ==>
          Pos(line[j]) == (r, j) && line[j].symbol == rows[r][j] && fresh(line[j]) && line[j].Pristine()
        invariant forall i, j :: 0 <= i < r && 0 <= j < |grid[i]| ==> grid[i][j].Pristine()
      {
        var cell := new Cell(r, c, rows[r][c]);
        line := line + [cell];
        c := c + 1;
      }
      grid := grid + [line];
      r := r + 1;
    }
  }

  /** The cell at `p` when `p` is a position of the grid. */
  function CellAt(grid: seq<seq<Cell>>, p: Option<Coord>): Option<Cell> {
    if p.Some? && 0 <= p.value.0 < |grid| && 0 <= p.value.1 < |grid[p.value.0]|
    then Some(grid[p.value.0][p.value.1]) else None
  }

  /**
   * Attempt k draws the grid cell (y, x); it is the target when it misses
   * `sym`, otherwise the next attempt decides.
   */
  lemma DrawStep(grid: seq<seq<Cell>>, rows: Rows, sym: char, box: Box, rand: RandInt, k: nat, x: int, y: int)
    requires HasSymbols(grid, rows) && Rectangular(rows) && BoxInside(box, rows) && RandIntInRange(rand)
    requires k <= MaxAttempts && x == rand(2 * k, box.colMin, box.colMax) && y == rand(2 * k + 1, box.rowMin, box.rowMax)
    ensures 0 <= y < |grid| && 0 <= x < |grid[y]|
    ensures grid[y][x].symbol != sym ==> ApproxTargetFrom(rows, sym, box, rand, k) == Some((y, x))
    ensures grid[y][x].symbol == sym ==>
      ApproxTargetFrom(rows, sym, box, rand, k) == ApproxTargetFrom(rows, sym, box, rand, k + 1)
  {
    DrawInBox(box, rows, rand, k);
    assert (y, x) == DrawAt(box, rand, k);
  }

  /**
   * The bounded retry loop of approximate targeting: up to MaxAttempts + 1
   * draws of a column and a row inside the zone's box; the first drawn cell
   * not holding `sym` is the target. It answers the cell at ApproxTarget.
   */
  method DrawTarget(grid: seq<seq<Cell>>, ghost rows: Rows, sym: char, box: Box, rand: RandInt)
    returns (target: Option<Cell>)
    requires HasSymbols(grid, rows) && Rectangular(rows) && BoxInside(box, rows) && RandIntInRange(rand)
    ensures target == CellAt(grid, ApproxTarget(rows, sym, box, rand))
  {
    ghost var goal := ApproxTarget(rows, sym, box, rand);
    var attempts := 0;
    while attempts <= MaxAttempts
      invariant 0 <= attempts <= MaxAttempts + 1
      invariant goal == ApproxTargetFrom(rows, sym, box, rand, attempts)
    {
      var targetX := rand(2 * attempts, box.colMin, box.colMax);
      var targetY := rand(2 * attempts + 1, box.rowMin, box.rowMax);
      DrawStep(grid, rows, sym, box, rand, attempts, targetX, targetY);
      if grid[targetY][targetX].symbol != sym {
        return Some(grid[targetY][targetX]);
      }
      attempts := attempts + 1;
    }
    return None;
  }

  /**
   * The row-major scan of the start and end cells: the last cell holding the
   * start symbol and, when `exact`, the last holding the end symbol.
   */
  method ScanEnds(grid: seq<seq<Cell>>, ghost rows: Rows, startSymbol: char, endSymbol: char, exact: bool)
    returns (startCell: Option<Cell>, endCell: Option<Cell>)
    requires HasSymbols(grid, rows)
    ensures startCell == CellAt(grid, LastMatch(rows, startSymbol, |rows|))
    ensures endCell == if exact then CellAt(grid, LastMatch(rows, endSymbol, |rows|)) else None
  {
    startCell, endCell := None, None;
    var i := 0;
    while i < |grid|
      invariant 0 <= i <= |grid|
      invariant startCell == CellAt(grid, LastMatch(rows, startSymbol, i))
      invariant endCell == if exact then CellAt(grid, LastMatch(rows, endSymbol, i)) else None
    {
      var j := 0;
      while j < |grid[i]|
        invariant 0 <= j <= |grid[i]|
        invariant startCell == CellAt(grid, ScanUpTo(rows, startSymbol, i, j))
        invariant endCell == if exact then CellAt(grid, ScanUpTo(rows, endSymbol, i, j)) else None
      {
        var cell := grid[i][j];
        if cell.symbol == startSymbol {
          startCell := Some(cell);
        }
        if cell.symbol == endSymbol && exact {
          endCell := Some(cell);
        }
        j := j + 1;
      }
      i := i + 1;
    }
  }

  /**
   * Resolves the start and end cells: one row-major scan keeps the last cell
   * holding the start symbol and, for exact targets, the last holding the end
   * symbol; an approximate target is drawn from the zone's box. The result,
   * including which error is raised first, is what Resolve describes.
   */
  method FindStartEnd(grid: seq<seq<Cell>>, ghost rows: Rows, startSymbol: char, endSymbol: char,
                      zones: Zones, isEfficient: bool, rand: RandInt) returns (r: Result<(Cell, Cell)>)
    requires WellIndexed(grid) && HasSymbols(grid, rows) && Rectangular(rows)
    requires EndBoxInside(zones, rows, endSymbol, isEfficient) && RandIntInRange(rand)
    ensures var res := Resolve(rows, startSymbol, endSymbol, zones, isEfficient, rand);
      (r.Failure? <==> res.Failure?) &&
      (r.Failure? ==> r.error == res.error) &&
      (r.Success? ==>
        IsGridCell(grid, r.value.0) && IsGridCell(grid, r.value.1) &&
        Pos(r.value.0) == res.value.0 && Pos(r.value.1) == res.value.1)
  {
    var exact := ExactEnd(endSymbol, isEfficient);
    var startCell, endCell := ScanEnds(grid, rows, startSymbol, endSymbol, exact);
    LastMatchSpec(rows, startSymbol, |rows|);
    LastMatchSpec(rows, endSymbol, |rows|);
    if !exact {
      if |zones| == 0 {
        return Failure(NoStoreLocations);
      }
      var found := LookupZone(zones, endSymbol);
      if found.None? {
        return Failure(UnknownZone(endSymbol));
      }
      assert BoxInside(found.value, rows);
      ApproxTargetFromSpec(rows, endSymbol, found.value, rand, 0);
      endCell := DrawTarget(grid, rows, endSymbol, found.value, rand);
      if endCell.None? {
        return Failure(TargetNotFound);
      }
    }
    if startCell.None? {
      return Failure(StartNotFound);
    }
    if endCell.None? {
      return Failure(EndNotFound);
    }
    r := Success((startCell.value, endCell.value));
  }

  /** A cell list without repeats. */
  predicate NoDup(s: seq<Cell>) {
    forall i, j :: 0 <= i < j < |s| ==> s[i] != s[j]
  }

  predicate Disjoint(a: seq<Cell>, b: set<Cell>) {
    forall x :: x in a ==> x !in b
  }

  lemma NoDupConcat(a: seq<Cell>, b: seq<Cell>)
    requires NoDup(a) && NoDup(b) && forall x :: x in a ==> x !in b
    ensures NoDup(a + b)
  {
    forall i, j | 0 <= i < j < |a + b| ensures (a + b)[i] != (a + b)[j] {
      if i < |a| && j >= |a| {
        assert (a + b)[i] in a && (a + b)[j] in b;
      }
    }
  }

  lemma AppendFresh(s: seq<Cell>, x: Cell, closedSet: set<Cell>)
    requires NoDup(s) && Disjoint(s, closedSet) && x !in s && x !in closedSet
    ensures NoDup(s + [x]) && Disjoint(s + [x], closedSet)
  {
  }

  /** The neighbours a relaxation pushes: walkable, not closed, not yet open, in order. */
  function Pushed(ns: seq<Cell>, unwalkables: seq<char>, openSet: seq<Cell>, closedSet: set<Cell>): (r: seq<Cell>)
    ensures forall x :: x in r ==>
      x in ns && x.symbol !in unwalkables && x !in closedSet && x !in openSet
    ensures forall x :: x in ns && x.symbol !in unwalkables && x !in closedSet && x !in openSet ==> x in r
  {
    if |ns| == 0 then []
    else
      var last := ns[|ns| - 1];
      Pushed(ns[..|ns| - 1], unwalkables, openSet, closedSet) +
      (if last.symbol !in unwalkables && last !in closedSet && last !in openSet then [last] else [])
  }

  lemma PushedSnoc(ns: seq<Cell>, x: Cell, unwalkables: seq<char>, openSet: seq<Cell>, closedSet: set<Cell>)
    ensures Pushed(ns + [x], unwalkables, openSet, closedSet) ==
      Pushed(ns, unwalkables, openSet, closedSet) +
      (if x.symbol !in unwalkables && x !in closedSet && x !in openSet then [x] else [])
  {
    assert (ns + [x])[..|ns|] == ns;
  }

  /** Pushing onto an open list without repeats or closed cells keeps it so. */
  lemma {:induction false} PushedNoDup(ns: seq<Cell>, unwalkables: seq<char>, openSet: seq<Cell>, closedSet: set<Cell>)
    requires NoDup(ns) && NoDup(openSet) && Disjoint(openSet, closedSet)
    ensures NoDup(openSet + Pushed(ns, unwalkables, openSet, closedSet))
    ensures Disjoint(openSet + Pushed(ns, unwalkables, openSet, closedSet), closedSet)
  {
    if |ns| > 0 {
      var front := ns[..|ns| - 1];
      var last := ns[|ns| - 1];
      assert ns == front + [last];
      PushedNoDup(front, unwalkables, openSet, closedSet);
      var pushed := Pushed(front, unwalkables, openSet, closedSet);
      if last.symbol !in unwalkables && last !in closedSet && last !in openSet {
        assert last !in front;
        AppendFresh(openSet + pushed, last, closedSet);
        assert Pushed(ns, unwalkables, openSet, closedSet) == pushed + [last];
        assert openSet + Pushed(ns, unwalkables, openSet, closedSet) == openSet + pushed + [last];
      } else {
        assert Pushed(ns, unwalkables, openSet, closedSet) == pushed;
      }
    }
  }

  lemma PushStep(ns: seq<Cell>, i: nat, openSet: seq<Cell>, open: seq<Cell>, unwalkables: seq<char>, closedSet: set<Cell>)
    requires i < |ns| && NoDup(ns)
    requires open == openSet + Pushed(ns[..i], unwalkables, openSet, closedSet)
    ensures (ns[i] in open) == (ns[i] in openSet)
    ensures forall j :: 0 <= j < i ==> ns[j] != ns[i]
    ensures openSet + Pushed(ns[..i + 1], unwalkables, openSet, closedSet) ==
      open + (if ns[i].symbol !in unwalkables && ns[i] !in closedSet && ns[i] !in openSet then [ns[i]] else [])
  {
    assert ns[..i + 1] == ns[..i] + [ns[i]];
    assert ns[i] !in ns[..i];
    PushedSnoc(ns[..i], ns[i], unwalkables, openSet, closedSet);
  }

  /**
   * `path` is a route from `s` to `e` on the layout: it starts at s, ends at
   * e, stays on the grid, moves one cell up, down, left or right per step,
   * and every cell after the first is walkable.
   */
  predicate Route(path: seq<Coord>, s: Coord, e: Coord, rows: Rows, unwalkables: seq<char>) {
    |path| >= 1 && path[0] == s && path[|path| - 1] == e &&
    (forall i :: 0 <= i < |path| ==> InBounds(rows, path[i])) &&
    Steps(path) &&
    (forall i :: 1 <= i < |path| ==> rows[path[i].0][path[i].1] !in unwalkables)
  }

  /** A route is never shorter than the Manhattan distance between its ends. */
  lemma RouteAtLeastDistance(path: seq<Coord>, s: Coord, e: Coord, rows: Rows, unwalkables: seq<char>)
    requires Route(path, s, e, rows, unwalkables)
    ensures |path| - 1 >= Manhattan(s, e)
  {
    StepsAtLeastManhattan(path);
  }

  /** A route can only end on an obstacle when it never leaves its start. */
  lemma RouteToObstacle(path: seq<Coord>, s: Coord, e: Coord, rows: Rows, unwalkables: seq<char>)
    requires Route(path, s, e, rows, unwalkables)
    requires InBounds(rows, e) && rows[e.0][e.1] in unwalkables
    ensures path == [s] && s == e
  {
  }

  function Reverse<T>(s: seq<T>): (r: seq<T>)
    ensures |r| == |s| && forall i :: 0 <= i < |s| ==> r[i] == s[|s| - 1 - i]
  {
    if |s| == 0 then [] else Reverse(s[1..]) + [s[0]]
  }

  /** What a search has written into a cell: its cost and its parent. */
  datatype Link = Link(g: int, parent: Cell?)

  /** One query's path finder: the grid it owns, the caller's obstacle list, and the resolved ends. */
  class PathFinder {
    const grid: seq<seq<Cell>>
    /** The layout the grid was built from. */
    ghost const rows: Rows
    const unwalkables: SymbolList
    const startSymbol: char
    const endSymbol: char
    const storeLocations: Zones
    const isEfficient: bool
    const startCell: Cell
    const endCell: Cell
    /** Every cell of the grid. */
    ghost const cells: set<Cell>

    ghost predicate Valid() {
      WellIndexed(grid) && HasSymbols(grid, rows) && Rectangular(rows) &&
      cells == CellsOf(grid) &&
      (forall x :: x in cells ==> IsGridCell(grid, x)) &&
      startCell in cells && endCell in cells
    }

    constructor (grid: seq<seq<Cell>>, ghost rows: Rows, unwalkables: SymbolList,
                 startSymbol: char, endSymbol: char, storeLocations: Zones, isEfficient: bool,
                 startCell: Cell, endCell: Cell)
      requires WellIndexed(grid) && HasSymbols(grid, rows) && Rectangular(rows)
      requires IsGridCell(grid, startCell) && IsGridCell(grid, endCell)
      ensures Valid() && cells == CellsOf(grid)
      ensures this.grid == grid && this.rows == rows && this.unwalkables == unwalkables
      ensures this.startSymbol == startSymbol && this.endSymbol == endSymbol
      ensures this.storeLocations == storeLocations && this.isEfficient == isEfficient
      ensures this.startCell == startCell && this.endCell == endCell
    {
      this.grid, this.rows, this.unwalkables := grid, rows, unwalkables;
      this.startSymbol, this.endSymbol := startSymbol, endSymbol;
      this.storeLocations, this.isEfficient := storeLocations, isEfficient;
      this.startCell, this.endCell := startCell, endCell;
      CellsOfMembers(grid);
      this.cells := CellsOf(grid);
    }

    /** The Manhattan distance between two cells. */
    function Heuristic(cell: Cell, target: Cell): (h: nat)
      ensures h == 0 <==> Pos(cell) == Pos(target)
    {
      Manhattan(Pos(cell), Pos(target))
    }

    /** The grid cell at offset (dr, dc) from `cell`, if that position is on the grid. */
    function Offset(cell: Cell, dr: int, dc: int): (s: seq<Cell>)
      requires Valid() && cell in cells
      ensures |s| <= 1
      ensures forall x :: x in s ==> x in cells && Pos(x) == (cell.row + dr, cell.col + dc)
      ensures forall x :: x in cells && Pos(x) == (cell.row + dr, cell.col + dc) ==> x in s
    {
      CellsOfMembers(grid);
      var r, c := cell.row + dr, cell.col + dc;
      if 0 <= r < |grid| && 0 <= c < |grid[r]| then [grid[r][c]] else []
    }

    /**
     * The cells above, below, left and right of `cell` that lie on the grid,
     * in that order: grid cells at distance one, at most four, none twice
     * (and, by GetNeighborsComplete, all of them).
     */
    function GetNeighbors(cell: Cell): (ns: seq<Cell>)
      requires Valid() && cell in cells
      ensures |ns| <= 4
      ensures forall x :: x in ns ==> x in cells && Manhattan(Pos(cell), Pos(x)) == 1
      ensures NoDup(ns)
      ensures forall i, j :: 0 <= i < j < |ns| ==> Direction(cell, ns[i]) < Direction(cell, ns[j])
    {
      var up, down, left, right := Offset(cell, -1, 0), Offset(cell, 1, 0), Offset(cell, 0, -1), Offset(cell, 0, 1);
      NeighborsComplete(cell, up, down, left, right);
      NoDupConcat(up, down);
      NoDupConcat(up + down, left);
      NoDupConcat(up + down + left, right);
      NeighborsInOrder(cell, up, down, left, right);
      up + down + left + right
    }

    /**
     * Appending at most one cell in direction d to cells listed in increasing
     * direction, all below d, keeps the directions increasing.
     */
    static lemma OrderedSnoc(cell: Cell, a: seq<Cell>, b: seq<Cell>, d: nat)
      requires |b| <= 1 && forall x :: x in b ==> Direction(cell, x) == d
      requires forall i :: 0 <= i < |a| ==> Direction(cell, a[i]) < d
      requires forall i, j :: 0 <= i < j < |a| ==> Direction(cell, a[i]) < Direction(cell, a[j])
      ensures forall i :: 0 <= i < |a + b| ==> Direction(cell, (a + b)[i]) <= d
      ensures forall i, j :: 0 <= i < j < |a + b| ==> Direction(cell, (a + b)[i]) < Direction(cell, (a + b)[j])
    {
    }

    /** Where `x` lies next to `cell`: 0 above, 1 below, 2 to the left, 3 to the right. */
    static function Direction(cell: Cell, x: Cell): nat {
      if x.row == cell.row - 1 then 0
      else if x.row == cell.row + 1 then 1
      else if x.col == cell.col - 1 then 2
      else 3
    }

    /** The four offsets, concatenated, list the neighbours above, below, left and right, in that order. */
    lemma NeighborsInOrder(cell: Cell, up: seq<Cell>, down: seq<Cell>, left: seq<Cell>, right: seq<Cell>)
      requires Valid() && cell in cells
      requires up == Offset(cell, -1, 0) && down == Offset(cell, 1, 0)
      requires left == Offset(cell, 0, -1) && right == Offset(cell, 0, 1)
      ensures forall i, j :: 0 <= i < j < |up + down + left + right| ==>
        Direction(cell, (up + down + left + right)[i]) < Direction(cell, (up + down + left + right)[j])
    {
      OrderedSnoc(cell, [], up, 0);
      OrderedSnoc(cell, up, down, 1);
      OrderedSnoc(cell, up + down, left, 2);
      OrderedSnoc(cell, up + down + left, right, 3);
    }

    /** Every grid cell at distance one from `cell` is among its neighbours. */
    lemma GetNeighborsComplete(cell: Cell)
      requires Valid() && cell in cells
      ensures forall x :: x in cells && Manhattan(Pos(cell), Pos(x)) == 1 ==> x in GetNeighbors(cell)
    {
      var up, down, left, right := Offset(cell, -1, 0), Offset(cell, 1, 0), Offset(cell, 0, -1), Offset(cell, 0, 1);
      NeighborsComplete(cell, up, down, left, right);
    }

    lemma NeighborsComplete(cell: Cell, up: seq<Cell>, down: seq<Cell>, left: seq<Cell>, right: seq<Cell>)
      requires Valid() && cell in cells
      requires up == Offset(cell, -1, 0) && down == Offset(cell, 1, 0)
      requires left == Offset(cell, 0, -1) && right == Offset(cell, 0, 1)
      ensures forall x :: x in up + down + left + right ==> x in cells && Manhattan(Pos(cell), Pos(x)) == 1
      ensures forall x :: x in cells && Manhattan(Pos(cell), Pos(x)) == 1 ==> x in up + down + left + right
    {
      forall x | x in cells && Manhattan(Pos(cell), Pos(x)) == 1 ensures x in up + down + left + right {
        if x.row == cell.row - 1 {
          assert x in up;
        } else if x.row == cell.row + 1 {
          assert x in down;
        } else if x.col == cell.col - 1 {
          assert x in left;
        } else {
          assert x in right;
        }
      }
    }

    /**
     * Relaxing x from a cell of cost `currentG` applies: x is walkable and not
     * closed, and either not yet open or dearer than currentG + 1 (its cost being xG).
     */
    predicate Improves(x: Cell, currentG: int, xG: int, unwalkables: seq<char>, openSet: seq<Cell>, closedSet: set<Cell>)
    {
      x.symbol !in unwalkables && x !in closedSet && (x !in openSet || currentG + 1 < xG)
    }

    /** x was reached at cost g from `parent`: its scratch fields say so. */
    predicate Relaxed(x: Cell, parent: Cell, g: int)
      reads x
    {
      x.g == g && x.h == Heuristic(x, endCell) && x.f == x.g + x.h && x.parent == parent
    }

    /**
     * One turn of the loop, on the i-th neighbour: relax it from `current`
     * when that Improves it, and push it when it was not open.
     */
    method RelaxAt(current: Cell, ns: seq<Cell>, i: nat, openSet: seq<Cell>, open: seq<Cell>, closedSet: set<Cell>)
      returns (newOpen: seq<Cell>)
      requires i < |ns| && NoDup(ns) && current !in ns
      requires open == openSet + Pushed(ns[..i], unwalkables.items, openSet, closedSet)
      modifies if Improves(ns[i], current.g, ns[i].g, unwalkables.items, openSet, closedSet)
        then {ns[i]} else {}
      ensures newOpen == openSet + Pushed(ns[..i + 1], unwalkables.items, openSet, closedSet)
      ensures Improves(ns[i], current.g, old(ns[i].g), unwalkables.items, openSet, closedSet) ==>
        ns[i].g == current.g + 1 && ns[i].h == Heuristic(ns[i], endCell) &&
        ns[i].f == ns[i].g + ns[i].h && ns[i].parent == current
      ensures forall j :: 0 <= j < |ns| && j != i ==>
        ns[j].g == old(ns[j].g) && ns[j].h == old(ns[j].h) && ns[j].f == old(ns[j].f) && ns[j].parent == old(ns[j].parent)
    {
      var neighbor := ns[i];
      PushStep(ns, i, openSet, open, unwalkables.items, closedSet);
      newOpen := open;
      if neighbor.symbol !in unwalkables.items && neighbor !in closedSet {
        var tentativeCost := current.g + 1;
        if neighbor !in open || tentativeCost < neighbor.g {
          neighbor.g := tentativeCost;
          neighbor.h := Heuristic(neighbor, endCell);
          neighbor.f := neighbor.g + neighbor.h;
          neighbor.parent := current;
          if neighbor !in open {
            newOpen := open + [neighbor];
          }
        }
      }
    }

    /**
     * The loop of EvaluateNeighbors over the neighbour list `ns`: each
     * neighbour that Improves gets cost current.g + 1, its heuristic, f and
     * `current` as parent; the ones not yet open are appended to the open
     * list in order. Only those neighbours change.
     */
    method RelaxEach(current: Cell, ns: seq<Cell>, openSet: seq<Cell>, closedSet: set<Cell>, ghost targets: set<Cell>)
      returns (newOpen: seq<Cell>)
      requires NoDup(ns) && current !in ns
      requires NoDup(openSet) && Disjoint(openSet, closedSet)
      requires forall j :: 0 <= j < |ns| && Improves(ns[j], current.g, ns[j].g, unwalkables.items, openSet, closedSet) ==>
        ns[j] in targets
      requires current !in targets
      requires forall x :: x in targets ==> x in ns && Improves(x, current.g, x.g, unwalkables.items, openSet, closedSet)
      modifies targets
      ensures newOpen == openSet + Pushed(ns, unwalkables.items, openSet, closedSet)
      ensures NoDup(newOpen) && Disjoint(newOpen, closedSet)
      ensures forall x :: x in targets ==> x.symbol !in unwalkables.items && Relaxed(x, current, current.g + 1)
      ensures forall j :: 0 <= j < |ns| && Improves(ns[j], old(current.g), old(ns[j].g), unwalkables.items, openSet, closedSet) ==>
        Relaxed(ns[j], current, current.g + 1)
    {
      newOpen := openSet;
      var i := 0;
      while i < |ns|
        invariant 0 <= i <= |ns|
        invariant newOpen == openSet + Pushed(ns[..i], unwalkables.items, openSet, closedSet)
        invariant forall j :: i <= j < |ns| ==> ns[j].g == old(ns[j].g)
        invariant forall j :: 0 <= j < i && ns[j] in targets ==> Relaxed(ns[j], current, current.g + 1)
      {
        newOpen := RelaxAt(current, ns, i, openSet, newOpen, closedSet);
        i := i + 1;
      }
      assert ns[..|ns|] == ns;
      PushedNoDup(ns, unwalkables.items, openSet, closedSet);
      forall x | x in targets ensures x.symbol !in unwalkables.items && Relaxed(x, current, current.g + 1) {
        var j :| 0 <= j < |ns| && ns[j] == x;
        assert Relaxed(ns[j], current, current.g + 1);
      }
    }

    /** The search state of every cell: its cost and its parent link. */
    ghost function Links(): map<Cell, Link>
      reads cells
    {
      map x | x in cells :: Link(x.g, x.parent)
    }

    /**
     * In `links`, the parent links from x take n steps through closed cells,
     * each step to an adjacent cell whose cost is one less, every cell but
     * the last walkable, ending at the start cell with cost 0.
     */
    ghost predicate ChainIn(links: map<Cell, Link>, obstacles: seq<char>, x: Cell, closedSet: set<Cell>, n: nat)
      decreases n
    {
      x in links && links[x].g == n &&
      if links[x].parent == null then x == startCell && n == 0
      else
        var parent := links[x].parent;
        n > 0 && parent in closedSet && Manhattan(Pos(parent), Pos(x)) == 1 &&
        x.symbol !in obstacles && ChainIn(links, obstacles, parent, closedSet, n - 1)
    }

    /** In `links`, every open cell has a parent chain back to the start cell. */
    ghost predicate TreeIn(links: map<Cell, Link>, obstacles: seq<char>, openSet: seq<Cell>, closedSet: set<Cell>) {
      forall x :: x in openSet ==> x in links && links[x].g >= 0 && ChainIn(links, obstacles, x, closedSet, links[x].g)
    }

    /** x has a parent chain back to the start cell, through closed cells, in the current state. */
    ghost predicate Chained(x: Cell, closedSet: set<Cell>)
      reads cells, unwalkables
    {
      x in cells && x.g >= 0 && ChainIn(Links(), unwalkables.items, x, closedSet, x.g)
    }

    /** Every open cell has a parent chain back to the start cell in the current state. */
    ghost predicate OpenTree(openSet: seq<Cell>, closedSet: set<Cell>)
      reads cells, unwalkables
    {
      TreeIn(Links(), unwalkables.items, openSet, closedSet)
    }

    /** A walkable cell linked to a chained closed neighbour, one step dearer, is chained. */
    lemma ChainStep(links: map<Cell, Link>, obstacles: seq<char>, x: Cell, closedSet: set<Cell>, parent: Cell)
      requires parent in closedSet && parent in links && links[parent].g >= 0
      requires ChainIn(links, obstacles, parent, closedSet, links[parent].g)
      requires x in links && links[x] == Link(links[parent].g + 1, parent)
      requires Manhattan(Pos(parent), Pos(x)) == 1 && x.symbol !in obstacles
      ensures ChainIn(links, obstacles, x, closedSet, links[x].g)
    {
    }

    /** A chain only depends on the links of its own cell and of the closed cells. */
    lemma {:induction false} ChainAgree(before: map<Cell, Link>, after: map<Cell, Link>, obstacles: seq<char>,
                                        x: Cell, closedSet: set<Cell>, kept: set<Cell>, n: nat)
      requires ChainIn(before, obstacles, x, closedSet, n)
      requires x in kept && closedSet <= kept
      requires forall y :: y in kept ==> y in before && y in after && after[y] == before[y]
      ensures ChainIn(after, obstacles, x, closedSet, n)
      decreases n
    {
      if before[x].parent != null {
        ChainAgree(before, after, obstacles, before[x].parent, closedSet, kept, n - 1);
      }
    }

    /** Closing more cells keeps every chain intact. */
    lemma {:induction false} ChainMono(links: map<Cell, Link>, obstacles: seq<char>, x: Cell,
                                       closedSet: set<Cell>, more: set<Cell>, n: nat)
      requires closedSet <= more && ChainIn(links, obstacles, x, closedSet, n)
      ensures ChainIn(links, obstacles, x, more, n)
      decreases n
    {
      if links[x].parent != null {
        ChainMono(links, obstacles, links[x].parent, closedSet, more, n - 1);
      }
    }

    /** Closing more cells keeps every open cell of a smaller open list chained. */
    lemma CloseKeepsTree(links: map<Cell, Link>, obstacles: seq<char>, openSet: seq<Cell>, rest: seq<Cell>,
                         closedSet: set<Cell>, more: set<Cell>)
      requires TreeIn(links, obstacles, openSet, closedSet) && closedSet <= more
      requires forall x :: x in rest ==> x in openSet
      ensures TreeIn(links, obstacles, rest, more)
      ensures forall x :: x in openSet ==> x in links && links[x].g >= 0 && ChainIn(links, obstacles, x, more, links[x].g)
    {
      forall x | x in openSet ensures ChainIn(links, obstacles, x, more, links[x].g) {
        ChainMono(links, obstacles, x, closedSet, more, links[x].g);
      }
    }

    /**
     * Popping the open cell at i into the closed list keeps the open list
     * free of repeats and apart from the closed list, keeps every open cell
     * chained, and leaves the popped cell chained through the closed cells.
     */
    lemma CloseOne(openSet: seq<Cell>, closedSet: set<Cell>, i: nat)
      requires NoDup(openSet) && Disjoint(openSet, closedSet) && OpenTree(openSet, closedSet)
      requires closedSet <= cells && i < |openSet|
      ensures var rest := openSet[..i] + openSet[i + 1..];
        var more := closedSet + {openSet[i]};
        openSet[i] in cells && openSet[i] !in closedSet && more <= cells &&
        NoDup(rest) && Disjoint(rest, more) && OpenTree(rest, more) && Chained(openSet[i], more)
    {
      var links := Links();
      var rest := openSet[..i] + openSet[i + 1..];
      var more := closedSet + {openSet[i]};
      RemoveAt(openSet, i);
      CloseKeepsTree(links, unwalkables.items, openSet, rest, closedSet, more);
      assert openSet[i] in openSet;
    }

    /**
     * Relaxing from a chained closed cell keeps every open cell chained: the
     * cells whose links stayed keep their chains, and the relaxed ones hang
     * off `current`.
     */
    lemma TreeAfterRelax(before: map<Cell, Link>, after: map<Cell, Link>, obstacles: seq<char>,
                         openSet: seq<Cell>, newOpen: seq<Cell>, closedSet: set<Cell>,
                         targets: set<Cell>, kept: set<Cell>, current: Cell)
      requires TreeIn(before, obstacles, openSet, closedSet)
      requires current in closedSet && current in before && before[current].g >= 0
      requires ChainIn(before, obstacles, current, closedSet, before[current].g)
      requires current in kept && closedSet <= kept
      requires forall y :: y in kept ==> y in before && y in after && after[y] == before[y]
      requires forall x :: x in targets ==>
        x in after && after[x] == Link(before[current].g + 1, current) &&
        Manhattan(Pos(current), Pos(x)) == 1 && x.symbol !in obstacles
      requires forall x :: x in newOpen ==> x in targets || (x in openSet && x in kept)
      ensures TreeIn(after, obstacles, newOpen, closedSet)
    {
      ChainAgree(before, after, obstacles, current, closedSet, kept, before[current].g);
      forall x | x in newOpen
        ensures x in after && after[x].g >= 0 && ChainIn(after, obstacles, x, closedSet, after[x].g)
      {
        if x in targets {
          ChainStep(after, obstacles, x, closedSet, current);
        } else {
          ChainAgree(before, after, obstacles, x, closedSet, kept, before[x].g);
        }
      }
    }

    /**
     * Relaxes the neighbours of the closed cell `current`: a neighbour that is
     * walkable, not closed, and either not yet open or reached more cheaply
     * through `current` gets g = current.g + 1, h = its distance to the end
     * cell, f = g + h and `current` as its parent; among those, the ones not
     * yet open are appended to the open list. No other cell changes, and
     * every open cell still has a parent chain back to the start.
     */
    method EvaluateNeighbors(current: Cell, openSet: seq<Cell>, closedSet: set<Cell>)
      returns (newOpen: seq<Cell>)
      requires Valid() && current in cells && current in closedSet && closedSet <= cells
      requires Chained(current, closedSet)
      requires NoDup(openSet) && Disjoint(openSet, closedSet) && OpenTree(openSet, closedSet)
      modifies set x | x in GetNeighbors(current) && Improves(x, current.g, x.g, unwalkables.items, openSet, closedSet)
      ensures newOpen == openSet + Pushed(GetNeighbors(current), unwalkables.items, openSet, closedSet)
      ensures unwalkables.items == old(unwalkables.items)
      ensures NoDup(newOpen) && Disjoint(newOpen, closedSet) && OpenTree(newOpen, closedSet)
      ensures forall x :: x in GetNeighbors(current) && Improves(x, old(current.g), old(x.g), unwalkables.items, openSet, closedSet) ==>
        Relaxed(x, current, current.g + 1)
    {
      ghost var before := Links();
      var ns := GetNeighbors(current);
      ghost var targets := set x | x in ns && Improves(x, current.g, x.g, unwalkables.items, openSet, closedSet);
      newOpen := RelaxEach(current, ns, openSet, closedSet, targets);
      ghost var after := Links();
      ghost var kept := cells - targets;
      ghost var U := unwalkables.items;
      assert forall y :: y in kept ==> y in before && y in after && after[y] == before[y];
      assert forall x :: x in targets ==>
        x in after && after[x] == Link(before[current].g + 1, current) &&
        Manhattan(Pos(current), Pos(x)) == 1 && x.symbol !in U;
      assert forall x :: x in newOpen ==> x in targets || (x in openSet && x in kept);
      TreeAfterRelax(before, after, U, openSet, newOpen, closedSet, targets, kept, current);
      forall x | x in ns && Improves(x, old(current.g), old(x.g), U, openSet, closedSet)
        ensures Relaxed(x, current, current.g + 1)
      {
        assert x in targets;
      }
    }

    /**
     * Reads the route back from `cell` through the parent links and reverses
     * it: a route from the start cell to `cell` with cell.g + 1 positions,
     * each cell's parent being the one before it.
     */
    method ReachedEnd(cell: Cell, ghost closedSet: set<Cell>) returns (path: seq<Coord>)
      requires Valid() && cell in cells && Chained(cell, closedSet)
      ensures Route(path, Pos(startCell), Pos(cell), rows, unwalkables.items)
      ensures |path| == cell.g + 1
      ensures forall i :: 0 < i < |path| ==>
        grid[path[i].0][path[i].1].parent == grid[path[i - 1].0][path[i - 1].1]
    {
      ghost var links := Links();
      ghost var U := unwalkables.items;
      var reversed: seq<Coord> := [];
      ghost var chain: seq<Cell> := [cell];
      var current := cell;
      while current.parent != null
        invariant current in cells && current.g >= 0 && ChainIn(links, U, current, closedSet, current.g)
        invariant |chain| >= 1 && chain[0] == cell && chain[|chain| - 1] == current
        invariant |reversed| == |chain| - 1 == cell.g - current.g
        invariant forall j :: 0 <= j < |chain| ==> chain[j] in cells
        invariant forall j :: 0 <= j < |reversed| ==> reversed[j] == Pos(chain[j])
        invariant forall j :: 0 <= j < |chain| - 1 ==> chain[j].parent == chain[j + 1]
        invariant forall j :: 0 <= j < |chain| - 1 ==>
          chain[j].symbol !in U && Manhattan(Pos(chain[j + 1]), Pos(chain[j])) == 1
        decreases current.g
      {
        assert links[current] == Link(current.g, current.parent);
        reversed := reversed + [Pos(current)];
        current := current.parent;
        chain := chain + [current];
      }
      reversed := reversed + [Pos(current)];
      assert links[current] == Link(current.g, current.parent);
      path := Reverse(reversed);
      ChainIsRoute(chain, path);
    }

    /**
     * A parent chain read back to front is a route: its cells are grid
     * cells, consecutive ones are adjacent, every cell but the first is
     * walkable, and each cell's parent is the one before it.
     */
    lemma ChainIsRoute(chain: seq<Cell>, path: seq<Coord>)
      requires Valid() && |chain| >= 1 && |path| == |chain|
      requires forall j :: 0 <= j < |chain| ==> chain[j] in cells
      requires forall i :: 0 <= i < |path| ==> path[i] == Pos(chain[|chain| - 1 - i])
      requires forall j :: 0 <= j < |chain| - 1 ==> chain[j].parent == chain[j + 1]
      requires forall j :: 0 <= j < |chain| - 1 ==>
        chain[j].symbol !in unwalkables.items && Manhattan(Pos(chain[j + 1]), Pos(chain[j])) == 1
      ensures Route(path, Pos(chain[|chain| - 1]), Pos(chain[0]), rows, unwalkables.items)
      ensures forall i :: 0 < i < |path| ==>
        grid[path[i].0][path[i].1].parent == grid[path[i - 1].0][path[i - 1].1]
    {
      var n := |chain|;
      forall i | 0 <= i < n ensures InBounds(rows, path[i]) && grid[path[i].0][path[i].1] == chain[n - 1 - i] {
        assert IsGridCell(grid, chain[n - 1 - i]);
      }
      forall i | 0 < i < n
        ensures Manhattan(path[i - 1], path[i]) == 1
        ensures rows[path[i].0][path[i].1] !in unwalkables.items
      {
        var k := n - 1 - i;
        assert path[i] == Pos(chain[k]) && path[i - 1] == Pos(chain[k + 1]);
      }
    }

    /**
     * The search loop of one query: starting with the start cell open, pop
     * an open cell into the closed list; if it is the end cell, return its
     * route, otherwise relax its neighbours; when the open list runs dry
     * there is no route. Only cells change, every route returned leads from
     * the start cell to the end cell in end.g + 1 positions, no route is
     * missed whatever the pop order, and there are at most as many pops as
     * cells.
     */
    method Search() returns (found: Option<seq<Coord>>, ghost pops: nat)
      requires Valid() && startCell.g == 0 && startCell.parent == null
      modifies cells
      ensures unwalkables.items == old(unwalkables.items)
      ensures pops <= |cells|
      ensures found.Some? ==> Route(found.value, Pos(startCell), Pos(endCell), rows, unwalkables.items)
      ensures found.Some? ==> |found.value| == endCell.g + 1
      ensures found.None? ==> forall p :: !Route(p, Pos(startCell), Pos(endCell), rows, unwalkables.items)
    {
      pops := 0;
      var openSet: seq<Cell> := [startCell];
      var closedSet: set<Cell> := {};
      while |openSet| > 0
        invariant unwalkables.items == old(unwalkables.items)
        invariant NoDup(openSet) && Disjoint(openSet, closedSet)
        invariant OpenTree(openSet, closedSet)
        invariant closedSet <= cells
        invariant pops + |cells - closedSet| == |cells|
        invariant Enclosed(cells, openSet, closedSet, unwalkables.items)
        invariant startCell in openSet || startCell in closedSet
        invariant endCell !in closedSet
        decreases |cells - closedSet|
      {
        var i :| 0 <= i < |openSet|;
        var current := openSet[i];
        ghost var popped, closedBefore := openSet, closedSet;
        CloseOne(openSet, closedSet, i);
        CloseShrinks(cells, closedSet, current);
        openSet := openSet[..i] + openSet[i + 1..];
        closedSet := closedSet + {current};
        pops := pops + 1;
        if current == endCell {
          var path := ReachedEnd(current, closedSet);
          return Some(path), pops;
        }
        openSet := EvaluateNeighbors(current, openSet, closedSet);
        GetNeighborsComplete(current);
        EnclosedAfterPop(cells, popped, closedBefore, unwalkables.items, i, GetNeighbors(current), openSet);
      }
      forall p ensures !Route(p, Pos(startCell), Pos(endCell), rows, unwalkables.items) {
        NoRoute(closedSet, p);
      }
      return None, pops;
    }

    /**
     * Once the open list is empty, the closed cells hold the start but not
     * the end, and every walkable neighbour of a closed cell is closed, so no
     * route joins the start to the end: each step of one would stay closed.
     */
    lemma NoRoute(closedSet: set<Cell>, p: seq<Coord>)
      requires Valid() && Enclosed(cells, [], closedSet, unwalkables.items)
      requires startCell in closedSet && endCell !in closedSet
      ensures !Route(p, Pos(startCell), Pos(endCell), rows, unwalkables.items)
    {
      if Route(p, Pos(startCell), Pos(endCell), rows, unwalkables.items) {
        CellsOfMembers(grid);
        var i := 0;
        while i < |p| - 1
          invariant 0 <= i < |p|
          invariant grid[p[i].0][p[i].1] in closedSet
        {
          var x := grid[p[i + 1].0][p[i + 1].1];
          assert Pos(grid[p[i].0][p[i].1]) == p[i] && Pos(x) == p[i + 1];
          assert x in cells && x.symbol == rows[p[i + 1].0][p[i + 1].1];
          i := i + 1;
        }
      }
    }
  }

  /**
   * Every walkable cell next to a closed cell has been seen: it is open or
   * closed.
   */
  predicate Enclosed(cells: set<Cell>, openSet: seq<Cell>, closedSet: set<Cell>, obstacles: seq<char>) {
    forall c, x :: c in closedSet && x in cells && Manhattan(Pos(c), Pos(x)) == 1 && x.symbol !in obstacles ==>
      x in openSet || x in closedSet
  }

  /**
   * Popping the open cell at i into the closed list and pushing its
   * walkable, unseen neighbours keeps every walkable neighbour of a closed
   * cell seen, and loses no open cell but the popped one.
   */
  lemma EnclosedAfterPop(cells: set<Cell>, openSet: seq<Cell>, closedSet: set<Cell>, obstacles: seq<char>,
                         i: nat, ns: seq<Cell>, newOpen: seq<Cell>)
    requires Enclosed(cells, openSet, closedSet, obstacles) && i < |openSet|
    requires forall x :: x in cells && Manhattan(Pos(openSet[i]), Pos(x)) == 1 ==> x in ns
    requires newOpen == openSet[..i] + openSet[i + 1..] +
      Pushed(ns, obstacles, openSet[..i] + openSet[i + 1..], closedSet + {openSet[i]})
    ensures Enclosed(cells, newOpen, closedSet + {openSet[i]}, obstacles)
    ensures forall y :: y in openSet ==> y in newOpen || y == openSet[i]
  {
    var rest := openSet[..i] + openSet[i + 1..];
    var more := closedSet + {openSet[i]};
    forall y | y in openSet && y != openSet[i] ensures y in rest {
      var j :| 0 <= j < |openSet| && openSet[j] == y;
      if j < i {
        assert rest[j] == y;
      } else {
        assert rest[j - 1] == y;
      }
    }
    forall c, x | c in more && x in cells && Manhattan(Pos(c), Pos(x)) == 1 && x.symbol !in obstacles
      ensures x in newOpen || x in more
    {
      if x !in more && x !in rest && c == openSet[i] {
        assert x in ns;
      }
    }
  }

  /**
   * Constructs a path finder the way its initialisation does: parse the
   * layout into fresh, pristine cells, resolve the start and end cells (or
   * fail as Resolve says), and only then, for an inefficient shopper, extend
   * the caller's obstacle list in place with every zone key but the exit's.
   */
  method Create(layout: LayoutInput, unwalkables: SymbolList, startSymbol: char, endSymbol: char,
                storeLocations: Zones, isEfficient: bool, rand: RandInt) returns (r: Result<PathFinder>)
    requires Rectangular(ParseLayout(layout))
    requires EndBoxInside(storeLocations, ParseLayout(layout), endSymbol, isEfficient)
    requires RandIntInRange(rand)
    modifies unwalkables
    ensures var rows := ParseLayout(layout);
      var res := Resolve(rows, startSymbol, endSymbol, storeLocations, isEfficient, rand);
      (r.Failure? <==> res.Failure?) &&
      (r.Failure? ==> r.error == res.error && unwalkables.items == old(unwalkables.items)) &&
      (r.Success? ==>
        var pf := r.value;
        pf.Valid() && pf.rows == rows &&
        Pos(pf.startCell) == res.value.0 && Pos(pf.endCell) == res.value.1 &&
        pf.unwalkables == unwalkables && pf.startSymbol == startSymbol && pf.endSymbol == endSymbol &&
        pf.storeLocations == storeLocations && pf.isEfficient == isEfficient &&
        (forall x :: x in pf.cells ==> fresh(x) && x.Pristine()) &&
        unwalkables.items == old(unwalkables.items) + ObstacleExtension(storeLocations, isEfficient))
  {
    var rows := ParseLayout(layout);
    var grid := BuildGrid(rows);
    var ends := FindStartEnd(grid, rows, startSymbol, endSymbol, storeLocations, isEfficient, rand);
    if ends.Failure? {
      return Failure(ends.error);
    }
    if !isEfficient {
      unwalkables.Extend(KeysExcept(storeLocations, 'E'));
    }
    var pf := new PathFinder(grid, rows, unwalkables, startSymbol, endSymbol, storeLocations, isEfficient,
                             ends.value.0, ends.value.1);
    r := Success(pf);
  }

  /** Removing the element at i from a list without repeats leaves the others, each once. */
  lemma RemoveAt(s: seq<Cell>, i: int)
    requires NoDup(s) && 0 <= i < |s|
    ensures NoDup(s[..i] + s[i + 1..])
    ensures forall x :: x in s[..i] + s[i + 1..] ==> x in s && x != s[i]
  {
    var t := s[..i] + s[i + 1..];
    assert forall k :: 0 <= k < |t| ==> t[k] == if k < i then s[k] else s[k + 1];
  }

  /** Closing one more cell leaves one cell fewer unclosed. */
  lemma CloseShrinks(cells: set<Cell>, closedSet: set<Cell>, x: Cell)
    requires x in cells && x !in closedSet
    ensures |cells - (closedSet + {x})| == |cells - closedSet| - 1
  {
    assert cells - (closedSet + {x}) == (cells - closedSet) - {x};
  }

  /**
   * The shipped store meets FindPath's layout requirements for every query:
   * the MARKET text parses to its twelve rows, they form a rectangle, and
   * the box of whatever zone the end symbol names lies inside them.
   */
  lemma ShippedStoreAccepted(endSymbol: char, isEfficient: bool)
    ensures ParseLayout(Text(Config.MARKET)) == Config.MARKET_ROWS
    ensures Rectangular(ParseLayout(Text(Config.MARKET)))
    ensures EndBoxInside(Config.STORE_LOCATIONS, ParseLayout(Text(Config.MARKET)), endSymbol, isEfficient)
  {
    Config.MarketParses();
    Config.MarketShape();
    Config.StoreLocationsInside();
    var found := LookupZone(Config.STORE_LOCATIONS, endSymbol);
    if found.Some? {
      var i :| 0 <= i < |Config.STORE_LOCATIONS| && Config.STORE_LOCATIONS[i] == (endSymbol, found.value);
      assert BoxInside(Config.STORE_LOCATIONS[i].1, Config.MARKET_ROWS);
    }
  }

  /**
   * One query, as `main` runs it: create the path finder, then pop cells
   * from the open list into the closed list until the end cell is popped
   * (its route is returned) or the open list is empty (then no route
   * exists). A failed
   * resolution is returned as its error. `pops` counts the pops; it never
   * exceeds the number of grid cells.
   */
  method FindPath(layout: LayoutInput, unwalkables: SymbolList, startSymbol: char, endSymbol: char,
                  storeLocations: Zones, isEfficient: bool, rand: RandInt)
    returns (result: Result<Option<seq<Coord>>>, ghost pops: nat)
    requires Rectangular(ParseLayout(layout))
    requires EndBoxInside(storeLocations, ParseLayout(layout), endSymbol, isEfficient)
    requires RandIntInRange(rand)
    modifies unwalkables
    ensures var rows := ParseLayout(layout);
      var res := Resolve(rows, startSymbol, endSymbol, storeLocations, isEfficient, rand);
      (result.Failure? <==> res.Failure?) &&
      (result.Failure? ==> result.error == res.error && unwalkables.items == old(unwalkables.items)) &&
      (result.Success? ==>
        unwalkables.items == old(unwalkables.items) + ObstacleExtension(storeLocations, isEfficient) &&
        pops <= |rows| * Width(rows) &&
        (result.value.Some? ==> Route(result.value.value, res.value.0, res.value.1, rows, unwalkables.items)) &&
        (result.value.None? ==> forall p :: !Route(p, res.value.0, res.value.1, rows, unwalkables.items)))
  {
    pops := 0;
    var created := Create(layout, unwalkables, startSymbol, endSymbol, storeLocations, isEfficient, rand);
    if created.Failure? {
      return Failure(created.error), pops;
    }
    var pf := created.value;
    assert |pf.rows| == |pf.grid| && forall r :: 0 <= r < |pf.grid| ==> |pf.grid[r]| <= Width(pf.rows);
    CellsOfSize(pf.grid, Width(pf.rows));
    assert pf.startCell.Pristine();
    var found;
    found, pops := pf.Search();
    return Success(found), pops;
  }
}
