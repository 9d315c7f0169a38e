/**
 * The store's tile grid as plain values: positions, layouts (rows of zone
 * symbols), zone bounding boxes, the text form of a layout, the row-major
 * scan that locates a symbol, and the bounded random draw of a standing
 * cell inside a zone's box.
 */
module Grid {

  datatype Option<T> = None | Some(value: T)

  /** A grid position as (row, column). */
  type Coord = (int, int)

  /** A layout: one string of zone symbols per row. */
  type Rows = seq<string>

  /**
   * A zone's bounding box, inclusive at both ends. The layout constants
   * write it as ((min column, max column), (min row, max row)).
   */
  datatype Box = Box(colMin: int, colMax: int, rowMin: int, rowMax: int)

  /** The number of randint draws the target search makes before it gives up is MaxAttempts + 1. */
  const MaxAttempts: nat := 500

  predicate Rectangular(rows: Rows) {
    forall r :: 0 <= r < |rows| ==> |rows[r]| == |rows[0]|
  }

  function Width(rows: Rows): nat {
    if |rows| == 0 then 0 else |rows[0]|
  }

  predicate InBounds(rows: Rows, p: Coord) {
    0 <= p.0 < |rows| && 0 <= p.1 < |rows[p.0]|
  }

  predicate InBox(p: Coord, b: Box) {
    b.rowMin <= p.0 <= b.rowMax && b.colMin <= p.1 <= b.colMax
  }

  /** Every position of the box indexes the layout. */
  predicate BoxInside(b: Box, rows: Rows) {
    0 <= b.rowMin <= b.rowMax < |rows| && 0 <= b.colMin <= b.colMax < Width(rows)
  }

  function Abs(x: int): nat {
    if x < 0 then -x else x
  }

  /** The Manhattan distance |Δrow| + |Δcol|. */
  function Manhattan(a: Coord, b: Coord): nat {
    Abs(a.0 - b.0) + Abs(a.1 - b.1)
  }

  lemma ManhattanMetric(a: Coord, b: Coord, c: Coord)
    ensures Manhattan(a, b) == Manhattan(b, a)
    ensures Manhattan(a, b) == 0 <==> a == b
    ensures Manhattan(a, c) <= Manhattan(a, b) + Manhattan(b, c)
  {
  }

  /**
   * The heuristic is consistent on a 4-connected grid: one step changes the
   * estimate to any target by at most one.
   */
  lemma ManhattanConsistent(a: Coord, b: Coord, t: Coord)
    requires Manhattan(a, b) == 1
    ensures Manhattan(a, t) <= Manhattan(b, t) + 1
    ensures Manhattan(b, t) <= Manhattan(a, t) + 1
  {
  }

  /** `path` moves one cell up, down, left or right at each step. */
  predicate Steps(path: seq<Coord>) {
    forall i :: 0 <= i < |path| - 1 ==> Manhattan(path[i], path[i + 1]) == 1
  }

  /**
   * The heuristic is admissible: a route of unit steps from its first to its
   * last cell has at least Manhattan-distance many steps.
   */
  lemma {:induction false} StepsAtLeastManhattan(path: seq<Coord>)
    requires |path| >= 1 && Steps(path)
    ensures |path| - 1 >= Manhattan(path[0], path[|path| - 1])
  {
    if |path| > 1 {
      var tail := path[1..];
      assert Steps(tail) by {
        forall i | 0 <= i < |tail| - 1 ensures Manhattan(tail[i], tail[i + 1]) == 1 {
          assert tail[i] == path[i + 1] && tail[i + 1] == path[i + 2];
        }
      }
      StepsAtLeastManhattan(tail);
      ManhattanMetric(path[0], path[1], path[|path| - 1]);
    }
  }

  // ---------------------------------------------------------------------
  // The text form of a layout: rows joined by newlines.

  /** Splits a text at every newline, keeping empty pieces, like Python's str.split("\n"). */
  function SplitLines(text: string): (rows: Rows)
    ensures |rows| >= 1
  {
    if |text| == 0 then [""]
    else
      var rest := SplitLines(text[1..]);
      if text[0] == '\n' then [""] + rest else [[text[0]] + rest[0]] + rest[1..]
  }

  /** Joins rows with a newline between neighbours, like Python's "\n".join. */
  function JoinLines(rows: Rows): (text: string)
    requires |rows| >= 1
    ensures rows[0] <= text
    ensures |rows| > 1 ==> |text| > |rows[0]| && text[|rows[0]|] == '\n'
  {
    if |rows| == 1 then rows[0] else rows[0] + "\n" + JoinLines(rows[1..])
  }

  predicate NoNewlines(rows: Rows) {
    forall r :: 0 <= r < |rows| ==> '\n' !in rows[r]
  }

  lemma {:induction false} SplitLinesHasNoNewlines(text: string)
    ensures NoNewlines(SplitLines(text))
  {
    if |text| > 0 {
      SplitLinesHasNoNewlines(text[1..]);
    }
  }

  lemma {:induction false} SplitPrefix(w: string, t: string)
    requires '\n' !in w
    ensures SplitLines(w + t) == [w + SplitLines(t)[0]] + SplitLines(t)[1..]
  {
    if |w| > 0 {
      assert (w + t)[1..] == w[1..] + t;
      SplitPrefix(w[1..], t);
      assert [w[0]] + (w[1..] + SplitLines(t)[0]) == w + SplitLines(t)[0];
    } else {
      var s := SplitLines(t);
      assert w + t == t && w + s[0] == s[0];
      assert s == [s[0]] + s[1..];
    }
  }

  /** Splitting the joined rows gives the rows back. */
  lemma {:induction false} SplitJoin(rows: Rows)
    requires |rows| >= 1 && NoNewlines(rows)
    ensures SplitLines(JoinLines(rows)) == rows
  {
    if |rows| == 1 {
      SplitPrefix(rows[0], "");
      assert rows[0] + "" == rows[0];
    } else {
      var rest := JoinLines(rows[1..]);
      assert NoNewlines(rows[1..]) by {
        forall r | 0 <= r < |rows[1..]| ensures '\n' !in rows[1..][r] {
          assert rows[1..][r] == rows[r + 1];
        }
      }
      SplitJoin(rows[1..]);
      assert '\n' !in rows[0];
      assert rows[0] + "\n" + rest == rows[0] + ("\n" + rest);
      SplitPrefix(rows[0], "\n" + rest);
      assert ("\n" + rest)[1..] == rest;
      assert SplitLines("\n" + rest) == [""] + rows[1..];
      assert rows[0] + "" == rows[0];
    }
  }

  /** Joining the pieces of a split gives the text back. */
  lemma {:induction false} JoinSplit(text: string)
    ensures JoinLines(SplitLines(text)) == text
  {
    if |text| > 0 {
      var rest := SplitLines(text[1..]);
      JoinSplit(text[1..]);
      if text[0] == '\n' {
        assert ([""] + rest)[1..] == rest;
      } else {
        var rows := [[text[0]] + rest[0]] + rest[1..];
        if |rest| == 1 {
          assert text == [text[0]] + text[1..];
        } else {
          assert rows[1..] == rest[1..];
          assert JoinLines(rest) == rest[0] + "\n" + JoinLines(rest[1..]);
          assert text == [text[0]] + text[1..];
        }
      }
    }
  }

  // ---------------------------------------------------------------------
  // Row-major scan for the last cell holding a symbol.

  /** The last column below `n` of `row` that holds `sym`. */
  function LastInRow(row: string, sym: char, n: nat): (r: Option<nat>)
    requires n <= |row|
    ensures r.Some? ==> r.value < n && row[r.value] == sym
  {
    if n == 0 then None
    else if row[n - 1] == sym then Some(n - 1)
    else LastInRow(row, sym, n - 1)
  }

  /** The last cell holding `sym` among the first `k` rows, in row-major order. */
  function LastMatch(rows: Rows, sym: char, k: nat): (r: Option<Coord>)
    requires k <= |rows|
    ensures r.Some? ==> r.value.0 < k && InBounds(rows, r.value) && rows[r.value.0][r.value.1] == sym
  {
    if k == 0 then None
    else match LastInRow(rows[k - 1], sym, |rows[k - 1]|)
      case Some(c) => Some((k - 1, c))
      case None => LastMatch(rows, sym, k - 1)
  }

  /** The last cell holding `sym` before position (r, c) in row-major order. */
  function ScanUpTo(rows: Rows, sym: char, r: nat, c: nat): (p: Option<Coord>)
    requires r < |rows| && c <= |rows[r]|
    ensures p.Some? ==> InBounds(rows, p.value) && rows[p.value.0][p.value.1] == sym && After(r, c, p.value)
  {
    match LastInRow(rows[r], sym, c)
    case Some(j) => Some((r, j))
    case None => LastMatch(rows, sym, r)
  }

  /** (r, c) comes after `p` in row-major order. */
  predicate After(r: int, c: int, p: Coord) {
    r > p.0 || (r == p.0 && c > p.1)
  }

  lemma {:induction false} LastInRowSpec(row: string, sym: char, n: nat)
    requires n <= |row|
    ensures LastInRow(row, sym, n).None? <==> forall j :: 0 <= j < n ==> row[j] != sym
    ensures LastInRow(row, sym, n).Some? ==>
      var j := LastInRow(row, sym, n).value;
      j < n && row[j] == sym && forall i :: j < i < n ==> row[i] != sym
  {
    if n > 0 && row[n - 1] != sym {
      LastInRowSpec(row, sym, n - 1);
    }
  }

  /**
   * LastMatch finds the last occurrence: none exists exactly when it answers
   * None, and when it answers a cell, that cell holds the symbol and no cell
   * after it does.
   */
  lemma {:induction false} LastMatchSpec(rows: Rows, sym: char, k: nat)
    requires k <= |rows|
    ensures LastMatch(rows, sym, k).None? <==>
      forall r, c :: 0 <= r < k && 0 <= c < |rows[r]| ==> rows[r][c] != sym
    ensures LastMatch(rows, sym, k).Some? ==>
      var p := LastMatch(rows, sym, k).value;
      p.0 < k && InBounds(rows, p) && rows[p.0][p.1] == sym &&
      forall r, c :: 0 <= r < k && 0 <= c < |rows[r]| && After(r, c, p) ==> rows[r][c] != sym
  {
    if k > 0 {
      LastInRowSpec(rows[k - 1], sym, |rows[k - 1]|);
      LastMatchSpec(rows, sym, k - 1);
    }
  }

  /** The cell holding `sym` is unique and sits at `p`. */
  predicate OnlyAt(rows: Rows, sym: char, p: Coord) {
    InBounds(rows, p) && rows[p.0][p.1] == sym &&
    forall r, c :: 0 <= r < |rows| && 0 <= c < |rows[r]| && rows[r][c] == sym ==> (r, c) == p
  }

  /** A symbol held by exactly one cell is found there, whatever the scan order. */
  lemma UniqueSymbolFound(rows: Rows, sym: char, p: Coord)
    requires OnlyAt(rows, sym, p)
    ensures LastMatch(rows, sym, |rows|) == Some(p)
  {
    LastMatchSpec(rows, sym, |rows|);
  }

  // ---------------------------------------------------------------------
  // Approximate targeting: random standing cells inside a zone's box.

  /** The i-th call randint(lo, hi) of the run, as an oracle. */
  type RandInt = (nat, int, int) -> int

  /** Every randint call answers inside its inclusive bounds. */
  ghost predicate RandIntInRange(rand: RandInt) {
    forall i: nat, lo: int, hi: int :: lo <= hi ==> lo <= rand(i, lo, hi) <= hi
  }

  /** Attempt k draws the column first (call 2k), then the row (call 2k + 1). */
  function DrawAt(b: Box, rand: RandInt, k: nat): Coord {
    (rand(2 * k + 1, b.rowMin, b.rowMax), rand(2 * k, b.colMin, b.colMax))
  }

  lemma DrawInBox(b: Box, rows: Rows, rand: RandInt, k: nat)
    requires BoxInside(b, rows) && Rectangular(rows) && RandIntInRange(rand)
    ensures InBox(DrawAt(b, rand, k), b) && InBounds(rows, DrawAt(b, rand, k))
  {
    var p := DrawAt(b, rand, k);
    assert b.rowMin <= p.0 <= b.rowMax;
    assert b.colMin <= p.1 <= b.colMax;
  }

  /** Attempts k .. MaxAttempts: the first drawn cell whose symbol is not `sym`. */
  function ApproxTargetFrom(rows: Rows, sym: char, b: Box, rand: RandInt, k: nat): Option<Coord>
    requires BoxInside(b, rows) && Rectangular(rows) && RandIntInRange(rand)
    decreases MaxAttempts + 1 - k
  {
    if k > MaxAttempts then None
    else
      var p := DrawAt(b, rand, k);
      DrawInBox(b, rows, rand, k);
      if rows[p.0][p.1] != sym then Some(p) else ApproxTargetFrom(rows, sym, b, rand, k + 1)
  }

  function ApproxTarget(rows: Rows, sym: char, b: Box, rand: RandInt): Option<Coord>
    requires BoxInside(b, rows) && Rectangular(rows) && RandIntInRange(rand)
  {
    ApproxTargetFrom(rows, sym, b, rand, 0)
  }

  /** The draw at attempt i hit a cell of the zone itself. */
  predicate Rejected(rows: Rows, sym: char, b: Box, rand: RandInt, i: nat)
    requires BoxInside(b, rows) && Rectangular(rows) && RandIntInRange(rand)
  {
    DrawInBox(b, rows, rand, i);
    rows[DrawAt(b, rand, i).0][DrawAt(b, rand, i).1] == sym
  }

  /**
   * The search accepts the first draw that misses the zone's own symbol: a
   * found cell lies in the box, does not hold `sym`, and every earlier draw
   * was rejected; nothing is found exactly when all the draws up to
   * MaxAttempts are rejected.
   */
  lemma {:induction false} ApproxTargetFromSpec(rows: Rows, sym: char, b: Box, rand: RandInt, k: nat)
    requires BoxInside(b, rows) && Rectangular(rows) && RandIntInRange(rand)
    ensures ApproxTargetFrom(rows, sym, b, rand, k).None? <==>
      forall i: nat :: k <= i <= MaxAttempts ==> Rejected(rows, sym, b, rand, i)
    ensures ApproxTargetFrom(rows, sym, b, rand, k).Some? ==>
      var p := ApproxTargetFrom(rows, sym, b, rand, k).value;
      InBox(p, b) && InBounds(rows, p) && rows[p.0][p.1] != sym &&
      exists j: nat :: k <= j <= MaxAttempts && p == DrawAt(b, rand, j) &&
        forall i: nat :: k <= i < j ==> Rejected(rows, sym, b, rand, i)
    decreases MaxAttempts + 1 - k
  {
    if k <= MaxAttempts {
      DrawInBox(b, rows, rand, k);
      var p := DrawAt(b, rand, k);
      if rows[p.0][p.1] != sym {
        assert !Rejected(rows, sym, b, rand, k);
      } else {
        assert Rejected(rows, sym, b, rand, k);
        ApproxTargetFromSpec(rows, sym, b, rand, k + 1);
        var r := ApproxTargetFrom(rows, sym, b, rand, k + 1);
        if r.Some? {
          var j: nat :| k + 1 <= j <= MaxAttempts && r.value == DrawAt(b, rand, j) &&
            forall i: nat :: k + 1 <= i < j ==> Rejected(rows, sym, b, rand, i);
          assert forall i: nat :: k <= i < j ==> Rejected(rows, sym, b, rand, i);
        }
      }
    }
  }

  /** The whole box is the zone's own symbol. */
  predicate BoxAllSymbol(rows: Rows, sym: char, b: Box)
    requires BoxInside(b, rows) && Rectangular(rows)
  {
    forall r, c :: b.rowMin <= r <= b.rowMax && b.colMin <= c <= b.colMax ==> rows[r][c] == sym
  }

  /** A box with no cell outside the zone can never yield a target, whatever the draws. */
  lemma FullBoxNeverResolves(rows: Rows, sym: char, b: Box, rand: RandInt)
    requires BoxInside(b, rows) && Rectangular(rows) && RandIntInRange(rand)
    requires BoxAllSymbol(rows, sym, b)
    ensures ApproxTarget(rows, sym, b, rand) == None
  {
    forall i: nat | 0 <= i <= MaxAttempts ensures Rejected(rows, sym, b, rand, i) {
      DrawInBox(b, rows, rand, i);
    }
    ApproxTargetFromSpec(rows, sym, b, rand, 0);
  }

  // ---------------------------------------------------------------------
  // Zone tables: symbol -> bounding box, in insertion order like a Python dict.

  type Zones = seq<(char, Box)>

  predicate ZonesInside(zones: Zones, rows: Rows) {
    forall i :: 0 <= i < |zones| ==> BoxInside(zones[i].1, rows)
  }

  /** The box registered for `sym`: the first entry with that key. */
  function LookupZone(zones: Zones, sym: char): (r: Option<Box>)
    ensures r.None? <==> forall i :: 0 <= i < |zones| ==> zones[i].0 != sym
    ensures r.Some? ==> exists i :: 0 <= i < |zones| && zones[i] == (sym, r.value)
  {
    if |zones| == 0 then None
    else if zones[0].0 == sym then Some(zones[0].1)
    else
      var r := LookupZone(zones[1..], sym);
      assert forall i :: 0 < i < |zones| ==> zones[1..][i - 1] == zones[i];
      r
  }

  /** A dict lookup answers the box of the first entry with the key. */
  lemma {:induction false} LookupFirst(zones: Zones, i: nat)
    requires i < |zones|
    requires forall j :: 0 <= j < i ==> zones[j].0 != zones[i].0
    ensures LookupZone(zones, zones[i].0) == Some(zones[i].1)
  {
    if i > 0 {
      assert zones[1..][i - 1] == zones[i];
      LookupFirst(zones[1..], i - 1);
    }
  }

  /** The keys other than `skip`, in table order. */
  function KeysExcept(zones: Zones, skip: char): (keys: seq<char>)
    ensures skip !in keys
  {
    if |zones| == 0 then []
    else (if zones[0].0 == skip then [] else [zones[0].0]) + KeysExcept(zones[1..], skip)
  }

  lemma {:induction false} KeysExceptSpec(zones: Zones, skip: char)
    ensures |KeysExcept(zones, skip)| <= |zones|
    ensures forall x :: x in KeysExcept(zones, skip) <==>
      x != skip && exists i :: 0 <= i < |zones| && zones[i].0 == x
  {
    if |zones| > 0 {
      KeysExceptSpec(zones[1..], skip);
      forall x | x != skip && (exists i :: 0 <= i < |zones| && zones[i].0 == x)
        ensures x in KeysExcept(zones, skip)
      {
        var i :| 0 <= i < |zones| && zones[i].0 == x;
        if i > 0 {
          assert zones[1..][i - 1].0 == x;
        }
      }
      forall x | x in KeysExcept(zones, skip)
        ensures x != skip && exists i :: 0 <= i < |zones| && zones[i].0 == x
      {
        if x !in KeysExcept(zones[1..], skip) {
          assert zones[0].0 == x;
        } else {
          var i :| 0 <= i < |zones[1..]| && zones[1..][i].0 == x;
          assert zones[i + 1].0 == x;
        }
      }
    }
  }
}
