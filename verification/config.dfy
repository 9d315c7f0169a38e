/**
 * The constants that instantiate the path finder and the simulation: the
 * location symbols, the store layout, the zone boxes, the initial obstacle
 * list and the arrival rate, with the facts about them that the two
 * components rely on.
 */
module Config {
  import opened Grid

  /** The kinds of tile a layout can show. */
  datatype Location =
    | Background | Checkout | Customer | Dairy | Drinks
    | Entrance | Exit | Fruit | Spices

  /** The layout symbol of each location. */
  function Value(l: Location): char {
    match l
    case Background => '#'
    case Checkout => 'C'
    case Customer => 'K'
    case Dairy => 'D'
    case Drinks => 'L'
    case Entrance => 'G'
    case Exit => 'E'
    case Fruit => 'F'
    case Spices => 'S'
  }

  /** The location a symbol stands for, if any. */
  function FromValue(sym: char): Option<Location> {
    match sym
    case '#' => Some(Background)
    case 'C' => Some(Checkout)
    case 'K' => Some(Customer)
    case 'D' => Some(Dairy)
    case 'L' => Some(Drinks)
    case 'G' => Some(Entrance)
    case 'E' => Some(Exit)
    case 'F' => Some(Fruit)
    case 'S' => Some(Spices)
    case _ => None
  }

  /** The symbols are pairwise distinct: reading a location's symbol back gives the location. */
  lemma ValueRoundTrip(l: Location)
    ensures FromValue(Value(l)) == Some(l)
  {
  }

  lemma ValuesDistinct(a: Location, b: Location)
    ensures Value(a) == Value(b) ==> a == b
  {
    ValueRoundTrip(a);
    ValueRoundTrip(b);
  }

  const SIMULATION_DURATION: nat := 20

  /** Arrivals per minute: numpy's randint(low, high), so high is exclusive. */
  const CUSTOMER_ARRIVAL_RATE: (int, int) := (0, 3)

  /** The store layout, one string per row (the source's MARKET text after strip()). */
  const MARKET_ROWS: Rows := [
    "####################",
    "##................##",
    "##L..LD..DS..SF..F##",
    "##L..LD..DS..SF..F##",
    "##L..LD..DS..SF..F##",
    "##L..LD..DS..SF..F##",
    "##L..LD..DS..SF..F##",
    "##................##",
    "##...CC..CC..CC...##",
    "##...CC..CC..CC...##",
    "##................##",
    "###E############G###"
  ]

  const MARKET: string := JoinLines(MARKET_ROWS)

  /** Zone boxes in dict order, each as (columns, rows), inclusive. */
  const STORE_LOCATIONS: Zones := [
    (Value(Checkout), Box(4, 15, 8, 9)),
    (Value(Dairy), Box(7, 8, 2, 6)),
    (Value(Drinks), Box(3, 4, 2, 6)),
    (Value(Fruit), Box(15, 16, 2, 6)),
    (Value(Exit), Box(11, 12, 2, 6)),
    (Value(Entrance), Box(16, 16, 11, 11)),
    (Value(Spices), Box(11, 12, 2, 6))
  ]

  const UNWALKABLES: seq<char> := ['#']

  /** MARKET is a 12 x 20 rectangle without newlines inside its rows. */
  lemma MarketShape()
    ensures |MARKET_ROWS| == 12 && Width(MARKET_ROWS) == 20
    ensures Rectangular(MARKET_ROWS) && NoNewlines(MARKET_ROWS)
  {
    forall r | 0 <= r < |MARKET_ROWS| ensures '\n' !in MARKET_ROWS[r] {
      if r == 0 {} else if r == 1 {} else if 2 <= r <= 6 {} else if r == 7 {}
      else if 8 <= r <= 9 {} else if r == 10 {} else {}
    }
  }

  /** Splitting the MARKET text at newlines gives back its rows. */
  lemma MarketParses()
    ensures SplitLines(MARKET) == MARKET_ROWS
  {
    MarketShape();
    SplitJoin(MARKET_ROWS);
  }

  /** Only the rows in [lo, hi) may hold `sym`. */
  lemma AbsentFromRows(sym: char, lo: nat, hi: nat)
    requires lo <= hi <= |MARKET_ROWS|
    requires forall r :: lo <= r < hi ==> sym !in MARKET_ROWS[r]
    ensures forall r, c :: lo <= r < hi && 0 <= c < |MARKET_ROWS[r]| ==> MARKET_ROWS[r][c] != sym
  {
    forall r, c | lo <= r < hi && 0 <= c < |MARKET_ROWS[r]| ensures MARKET_ROWS[r][c] != sym {
      assert MARKET_ROWS[r][c] in MARKET_ROWS[r];
    }
  }

  /** The rows above the bottom wall hold neither the entrance nor the exit. */
  lemma NoDoorsAboveRow11(sym: char)
    requires sym == 'G' || sym == 'E'
    ensures forall r :: 0 <= r < 11 ==> sym !in MARKET_ROWS[r]
  {
    forall r | 0 <= r < 11 ensures sym !in MARKET_ROWS[r] {
      if r == 0 {} else if r == 1 {} else if 2 <= r <= 6 {} else if r == 7 {}
      else if 8 <= r <= 9 {} else {}
    }
  }

  /** Exactly one cell is the entrance, at row 11, column 16; the scan finds it. */
  lemma EntranceUnique()
    ensures OnlyAt(MARKET_ROWS, Value(Entrance), (11, 16))
    ensures LastMatch(MARKET_ROWS, Value(Entrance), |MARKET_ROWS|) == Some((11, 16))
  {
    var row := MARKET_ROWS[11];
    NoDoorsAboveRow11('G');
    AbsentFromRows('G', 0, 11);
    assert forall c :: 0 <= c < |row| && row[c] == 'G' ==> c == 16;
    UniqueSymbolFound(MARKET_ROWS, 'G', (11, 16));
  }

  /** Exactly one cell is the exit, at row 11, column 3; the scan finds it. */
  lemma ExitUnique()
    ensures OnlyAt(MARKET_ROWS, Value(Exit), (11, 3))
    ensures LastMatch(MARKET_ROWS, Value(Exit), |MARKET_ROWS|) == Some((11, 3))
  {
    var row := MARKET_ROWS[11];
    NoDoorsAboveRow11('E');
    AbsentFromRows('E', 0, 11);
    assert forall c :: 0 <= c < |row| && row[c] == 'E' ==> c == 3;
    UniqueSymbolFound(MARKET_ROWS, 'E', (11, 3));
  }

  /** Every zone box indexes the 12 x 20 layout. */
  lemma StoreLocationsInside()
    ensures ZonesInside(STORE_LOCATIONS, MARKET_ROWS)
  {
    MarketShape();
  }

  /** Some cell of the box is not the zone's own symbol. */
  ghost predicate HasStandingCell(rows: Rows, sym: char, b: Box) {
    exists r, c :: b.rowMin <= r <= b.rowMax && b.colMin <= c <= b.colMax &&
      InBounds(rows, (r, c)) && rows[r][c] != sym
  }

  /** The box registered for a zone has a cell outside the zone. */
  ghost predicate ZoneHasStandingCell(sym: char) {
    LookupZone(STORE_LOCATIONS, sym).Some? &&
    HasStandingCell(MARKET_ROWS, sym, LookupZone(STORE_LOCATIONS, sym).value)
  }

  /** Entry i is the first with its key, and its box has a cell (r, c) outside the zone. */
  lemma StandingCellAt(i: nat, r: int, c: int)
    requires i < |STORE_LOCATIONS|
    requires forall j :: 0 <= j < i ==> STORE_LOCATIONS[j].0 != STORE_LOCATIONS[i].0
    requires InBox((r, c), STORE_LOCATIONS[i].1) && InBounds(MARKET_ROWS, (r, c))
    requires MARKET_ROWS[r][c] != STORE_LOCATIONS[i].0
    ensures ZoneHasStandingCell(STORE_LOCATIONS[i].0)
  {
    LookupFirst(STORE_LOCATIONS, i);
  }

  /**
   * For every interior zone that approximate targeting is used for
   * (checkout, dairy, drinks, fruit, spices), its box has a cell outside the
   * zone, so a draw can succeed.
   */
  lemma InteriorBoxHasStandingCell(l: Location)
    requires l in {Checkout, Dairy, Drinks, Fruit, Spices}
    ensures ZoneHasStandingCell(Value(l))
  {
    match l
    case Checkout => StandingCellAt(0, 8, 4);
    case Dairy => StandingCellAt(1, 2, 7);
    case Drinks => StandingCellAt(2, 2, 3);
    case Fruit => StandingCellAt(3, 2, 15);
    case Spices => StandingCellAt(6, 2, 11);
  }

  /** The initial obstacle list is the background symbol alone. */
  lemma UnwalkablesIsBackground()
    ensures UNWALKABLES == [Value(Background)]
  {
  }

  /** An inefficient query adds every zone key except the exit, in dict order. */
  lemma InefficientObstacles()
    ensures KeysExcept(STORE_LOCATIONS, 'E') == ['C', 'D', 'L', 'F', 'G', 'S']
  {
  }

  /** A draw for CUSTOMER_ARRIVAL_RATE is 0, 1 or 2. */
  lemma ArrivalsPerMinute(n: int)
    requires CUSTOMER_ARRIVAL_RATE.0 <= n < CUSTOMER_ARRIVAL_RATE.1
    ensures n == 0 || n == 1 || n == 2
  {
  }
}
