/**
 * The Markov simulation of shoppers: customers wander between store
 * locations, a supermarket object advances the clock minute by minute,
 * admits a random number of new customers with consecutive ids, logs one
 * row per customer present and lets the customers at the checkout go.
 *
 * Randomness enters as parameters: `draw` picks the column label a customer
 * moves to, `n` is the number of arrivals, and `names` are the generated
 * customer names.
 */
module Simulation {
  import Config
  import Grid

  const ENTRANCE: string := "entrance"
  const CHECKOUT: string := "checkout"

  /** The transition matrix, reduced to its column labels (the locations a customer can move to). */
  datatype TransitionMatrix = TransitionMatrix(labels: seq<string>)

  /** A shopper: an id and a name, and where it is now and where it was a minute ago. */
  class Customer {
    const transitions: TransitionMatrix
    const id: int
    const name: string
    var current: string
    var previous: string

    /** A new customer stands at the entrance, and has never been anywhere else. */
    constructor (transitions: TransitionMatrix, id: int, name: string)
      ensures this.transitions == transitions && this.id == id && this.name == name
      ensures current == ENTRANCE && previous == ENTRANCE
    {
      this.transitions, this.id, this.name := transitions, id, name;
      current, previous := ENTRANCE, ENTRANCE;
    }

    /**
     * Moves one step: the location left behind becomes the previous one,
     * and the new location is the column label picked by the draw.
     */
    method NextLocation(draw: nat)
      requires draw < |transitions.labels|
      modifies this
      ensures previous == old(current)
      ensures current == transitions.labels[draw] && current in transitions.labels
    {
      previous := current;
      current := transitions.labels[draw];
    }

    /** A customer is active until it reaches the checkout. */
    predicate IsActive()
      reads this
    {
      current != CHECKOUT
    }
  }

  // ---------------------------------------------------------------------
  // The clock: minutes since the start, shown as zero-padded HH:MM
  // ---------------------------------------------------------------------

  predicate IsDigit(c: char) {
    '0' <= c <= '9'
  }

  predicate IsDigits(s: string) {
    forall i :: 0 <= i < |s| ==> IsDigit(s[i])
  }

  function DigitChar(d: nat): (c: char)
    requires d < 10
    ensures IsDigit(c) && (c as int) - ('0' as int) == d
  {
    (('0' as int) + d) as char
  }

  /** The decimal digits of n, without leading zeros. */
  function Digits(n: nat): (s: string)
    ensures 1 <= |s| && IsDigits(s)
    ensures n < 10 <==> |s| == 1
    ensures s[0] == '0' <==> n == 0
    decreases n
  {
    if n < 10 then [DigitChar(n)] else Digits(n / 10) + [DigitChar(n % 10)]
  }

  /** The number a string of decimal digits spells. */
  function DigitsValue(s: string): nat
    requires IsDigits(s)
  {
    if |s| == 0 then 0
    else DigitsValue(s[..|s| - 1]) * 10 + ((s[|s| - 1] as int) - ('0' as int))
  }

  /** Reading the digits of n back gives n. */
  lemma {:induction false} DigitsRoundTrip(n: nat)
    ensures DigitsValue(Digits(n)) == n
    decreases n
  {
    if n >= 10 {
      DigitsRoundTrip(n / 10);
      var s := Digits(n);
      assert s[..|s| - 1] == Digits(n / 10);
    }
  }

  /** A number zero-padded to at least two digits, as the `02` format prints it. */
  function Pad2(n: nat): (s: string)
    ensures 2 <= |s| && IsDigits(s)
    ensures n < 100 ==> |s| == 2
    ensures s[0] == '0' <==> n < 10
    ensures DigitsValue(s) == n
  {
    if n < 10 then
      assert DigitsValue([DigitChar(n)][..0]) == 0;
      ['0', DigitChar(n)]
    else
      DigitsRoundTrip(n);
      Digits(n)
  }

  /** The clock shown after m minutes: whole hours (never wrapped at 24), a colon, the minutes of the hour. */
  function FormatClock(m: nat): (t: string)
    ensures |t| >= 5 && t[|t| - 3] == ':'
    ensures IsDigits(t[..|t| - 3]) && IsDigits(t[|t| - 2..])
    ensures m < 6000 ==> |t| == 5
    ensures DigitsValue(t[..|t| - 3]) == m / 60 && DigitsValue(t[|t| - 2..]) == m % 60
    ensures t[0] == '0' <==> m < 600
  {
    var hours := Pad2(m / 60);
    var mins := Pad2(m % 60);
    var t := hours + [':'] + mins;
    assert t[..|t| - 3] == hours && t[|t| - 2..] == mins;
    t
  }

  /** Reads a clock back into minutes; None when the text is not digits, a colon and two digits. */
  function ParseClock(t: string): Grid.Option<nat> {
    if |t| >= 3 && t[|t| - 3] == ':' && IsDigits(t[..|t| - 3]) && IsDigits(t[|t| - 2..]) then
      Grid.Some(DigitsValue(t[..|t| - 3]) * 60 + DigitsValue(t[|t| - 2..]))
    else Grid.None
  }

  /** The clock loses nothing: parsing what is shown gives back the minutes. */
  lemma ClockRoundTrip(m: nat)
    ensures ParseClock(FormatClock(m)) == Grid.Some(m)
  {
    var hours := Pad2(m / 60);
    var mins := Pad2(m % 60);
    var t := FormatClock(m);
    assert t == hours + [':'] + mins;
    assert t[..|t| - 3] == hours && t[|t| - 2..] == mins;
  }

  /** Different minute counts are shown differently. */
  lemma ClockInjective(a: nat, b: nat)
    requires FormatClock(a) == FormatClock(b)
    ensures a == b
  {
    ClockRoundTrip(a);
    ClockRoundTrip(b);
  }

  // ---------------------------------------------------------------------
  // Customer lists
  // ---------------------------------------------------------------------

  /** No customer appears twice. */
  predicate Distinct(cs: seq<Customer>) {
    forall i, j :: 0 <= i < j < |cs| ==> cs[i] != cs[j]
  }

  /** Ids strictly increase along the list. */
  predicate IdsIncreasing(cs: seq<Customer>) {
    forall i, j :: 0 <= i < j < |cs| ==> cs[i].id < cs[j].id
  }

  /** The customers of cs that are still active, in their order in cs. */
  function Active(cs: seq<Customer>): (r: seq<Customer>)
    reads cs
    ensures |r| <= |cs|
    ensures forall i :: 0 <= i < |r| ==> r[i] in cs && r[i].IsActive()
    ensures forall i :: 0 <= i < |cs| && cs[i].IsActive() ==> cs[i] in r
  {
    if |cs| == 0 then []
    else
      var last := cs[|cs| - 1];
      Active(cs[..|cs| - 1]) + (if last.IsActive() then [last] else [])
  }

  /** r can be obtained from s by deleting elements, keeping the order of the rest. */
  predicate Subsequence(r: seq<Customer>, s: seq<Customer>)
    decreases |s|
  {
    if |r| == 0 then true
    else if |s| == 0 then false
    else if r[|r| - 1] == s[|s| - 1] then Subsequence(r[..|r| - 1], s[..|s| - 1])
    else Subsequence(r, s[..|s| - 1])
  }

  /** Filtering only deletes customers; the others keep their relative order. */
  lemma {:induction false} ActiveSubsequence(cs: seq<Customer>)
    ensures Subsequence(Active(cs), cs)
    decreases |cs|
  {
    if |cs| > 0 {
      var front := cs[..|cs| - 1];
      ActiveSubsequence(front);
      var r := Active(cs);
      if cs[|cs| - 1].IsActive() {
        assert r[..|r| - 1] == Active(front);
      } else {
        assert r == Active(front);
        SubsequenceSkip(r, front);
      }
    }
  }

  /** r stays a subsequence of s when one more element is added at the end of s. */
  lemma {:induction false} SubsequenceSkip(r: seq<Customer>, s: seq<Customer>)
    requires Subsequence(r, s)
    ensures forall x :: Subsequence(r, s + [x])
    decreases |s|, 1
  {
    forall x ensures Subsequence(r, s + [x]) {
      if |r| > 0 {
        assert (s + [x])[..|s|] == s;
        if r[|r| - 1] == x {
          SubsequenceDropLast(r, s);
        }
      }
    }
  }

  /** Dropping the last element of a subsequence leaves a subsequence. */
  lemma {:induction false} SubsequenceDropLast(r: seq<Customer>, s: seq<Customer>)
    requires |r| > 0 && Subsequence(r, s)
    ensures Subsequence(r[..|r| - 1], s)
    decreases |s|, 0
  {
    var front := r[..|r| - 1];
    if |s| > 0 {
      var s' := s[..|s| - 1];
      if r[|r| - 1] == s[|s| - 1] {
        SubsequenceSkip(front, s');
        assert s == s' + [s[|s| - 1]];
      } else {
        SubsequenceDropLast(r, s');
        SubsequenceSkip(front, s');
        assert s == s' + [s[|s| - 1]];
      }
    }
  }

  /** Every element of a subsequence comes from the sequence. */
  lemma {:induction false} SubsequenceMembers(r: seq<Customer>, s: seq<Customer>)
    requires Subsequence(r, s)
    ensures forall x :: x in r ==> x in s
    decreases |s|
  {
    if |r| > 0 {
      var s' := s[..|s| - 1];
      if r[|r| - 1] == s[|s| - 1] {
        SubsequenceMembers(r[..|r| - 1], s');
        assert r == r[..|r| - 1] + [r[|r| - 1]];
      } else {
        SubsequenceMembers(r, s');
      }
    }
  }

  /** A subsequence of a list with strictly increasing ids has strictly increasing ids. */
  lemma {:induction false} SubsequenceIncreasing(r: seq<Customer>, s: seq<Customer>)
    requires Subsequence(r, s) && IdsIncreasing(s)
    ensures IdsIncreasing(r)
    decreases |s|
  {
    if |r| > 0 {
      var s' := s[..|s| - 1];
      var r' := r[..|r| - 1];
      if r[|r| - 1] == s[|s| - 1] {
        SubsequenceIncreasing(r', s');
        SubsequenceMembers(r', s');
        forall i | 0 <= i < |r'| ensures r[i].id < r[|r| - 1].id {
          assert r[i] == r'[i] && r'[i] in s';
        }
      } else {
        SubsequenceIncreasing(r, s');
      }
    }
  }

  /** A subsequence of a list without repeats has no repeats. */
  lemma {:induction false} SubsequenceDistinct(r: seq<Customer>, s: seq<Customer>)
    requires Subsequence(r, s) && Distinct(s)
    ensures Distinct(r)
    decreases |s|
  {
    if |r| > 0 {
      var s' := s[..|s| - 1];
      var r' := r[..|r| - 1];
      if r[|r| - 1] == s[|s| - 1] {
        SubsequenceDistinct(r', s');
        SubsequenceMembers(r', s');
        forall i | 0 <= i < |r'| ensures r[i] != r[|r| - 1] {
          assert r[i] == r'[i] && r'[i] in s';
        }
      } else {
        SubsequenceDistinct(r, s');
      }
    }
  }

  /** Letting the checkout customers go a second time changes nothing. */
  lemma {:induction false} ActiveIdempotent(cs: seq<Customer>)
    ensures Active(Active(cs)) == Active(cs)
    decreases |cs|
  {
    if |cs| > 0 {
      var front := cs[..|cs| - 1];
      var last := cs[|cs| - 1];
      ActiveIdempotent(front);
      var a := Active(front);
      if last.IsActive() {
        var r := a + [last];
        assert r[..|r| - 1] == a;
        assert Active(r) == Active(a) + [last];
      } else {
        assert Active(cs) == a;
      }
    }
  }

  /** One logged row: the clock, the customer's id, name and location. */
  datatype LogRow = LogRow(timestamp: string, customerNo: int, name: string, location: string)

  /** The store: the customers inside, the minutes elapsed, the next id to hand out, and the log. */
  class Supermarket {
    var customers: seq<Customer>
    var minutes: nat
    var lastId: int
    var log: seq<LogRow>

    /** A customer object is in the list at most once. */
    predicate Valid()
      reads this
    {
      Distinct(customers)
    }

    /** Every customer moves by the given transition matrix. */
    predicate UsesMatrix(transitions: TransitionMatrix)
      reads this
    {
      forall i :: 0 <= i < |customers| ==> customers[i].transitions == transitions
    }

    /** Ids strictly increase along the list and are all below the next id to hand out. */
    predicate Ordered()
      reads this
    {
      IdsIncreasing(customers) && forall i :: 0 <= i < |customers| ==> customers[i].id < lastId
    }

    constructor ()
      ensures customers == [] && minutes == 0 && lastId == 0 && log == []
      ensures Valid() && Ordered()
    {
      customers, minutes, lastId, log := [], 0, 0, [];
    }

    /** The current time as a clock text. */
    function GetTime(): (t: string)
      reads this
      ensures |t| >= 5 && t[|t| - 3] == ':' && IsDigits(t[..|t| - 3]) && IsDigits(t[|t| - 2..])
      ensures DigitsValue(t[..|t| - 3]) == minutes / 60 && DigitsValue(t[|t| - 2..]) == minutes % 60
      ensures ParseClock(t) == Grid.Some(minutes)
      ensures minutes < 6000 ==> |t| == 5
    {
      ClockRoundTrip(minutes);
      FormatClock(minutes)
    }

    /**
     * Advances the clock by one minute and moves every customer once, the
     * i-th by draws[i]; the list itself is left as it is.
     */
    method NextMinute(draws: seq<nat>)
      requires Valid() && |draws| == |customers|
      requires forall i :: 0 <= i < |customers| ==> draws[i] < |customers[i].transitions.labels|
      modifies this, customers
      ensures minutes == old(minutes) + 1
      ensures customers == old(customers) && lastId == old(lastId) && log == old(log)
      ensures forall i :: 0 <= i < |customers| ==>
        customers[i].previous == old(customers[i].current) &&
        customers[i].current == customers[i].transitions.labels[draws[i]]
    {
      minutes := minutes + 1;
      for i := 0 to |customers|
        invariant customers == old(customers) && minutes == old(minutes) + 1
        invariant lastId == old(lastId) && log == old(log)
        invariant forall j :: 0 <= j < i ==>
          customers[j].previous == old(customers[j].current) &&
          customers[j].current == customers[j].transitions.labels[draws[j]]
        invariant forall j :: i <= j < |customers| ==> customers[j].current == old(customers[j].current)
      {
        label before:
        customers[i].NextLocation(draws[i]);
        forall j | 0 <= j < |customers| && j != i
          ensures customers[j].current == old@before(customers[j].current)
          ensures customers[j].previous == old@before(customers[j].previous)
        {
          assert customers[j] != customers[i];
        }
      }
    }

    /**
     * Admits n new customers, n being the draw from [frequency.0, frequency.1):
     * they join the end of the list at the entrance with ids lastId ..
     * lastId + n - 1 and the given names, and lastId grows by n (a negative
     * draw admits no one and lowers lastId).
     */
    method AddNewCustomers(frequency: (int, int), transitions: TransitionMatrix, n: int, names: seq<string>)
      requires frequency.0 <= n < frequency.1 && n <= |names|
      requires Valid()
      modifies this
      ensures Valid()
      ensures minutes == old(minutes) && log == old(log) && lastId == old(lastId) + n
      ensures |customers| == |old(customers)| + (if n > 0 then n else 0)
      ensures customers[..|old(customers)|] == old(customers)
      ensures forall i :: |old(customers)| <= i < |customers| ==>
        var c := customers[i];
        fresh(c) && c.id == old(lastId) + (i - |old(customers)|) && c.name == names[i - |old(customers)|] &&
        c.transitions == transitions && c.current == ENTRANCE && c.previous == ENTRANCE
      ensures old(Ordered()) && n >= 0 ==> Ordered()
      ensures old(UsesMatrix(transitions)) ==> UsesMatrix(transitions)
    {
      var count := if n > 0 then n else 0;
      for k := 0 to count
        invariant minutes == old(minutes) && log == old(log) && lastId == old(lastId)
        invariant |customers| == |old(customers)| + k
        invariant customers[..|old(customers)|] == old(customers)
        invariant forall i :: |old(customers)| <= i < |customers| ==>
          var c := customers[i];
          fresh(c) && c.id == old(lastId) + (i - |old(customers)|) && c.name == names[i - |old(customers)|] &&
          c.transitions == transitions && c.current == ENTRANCE && c.previous == ENTRANCE
        invariant Distinct(customers)
      {
        var c := new Customer(transitions, lastId + k, names[k]);
        AppendFresh(customers, c);
        customers := customers + [c];
      }
      lastId := lastId + n;
      if old(Ordered()) && n >= 0 {
        AddedInOrder(old(customers), customers, old(lastId), lastId);
      }
    }

    /** Lets every customer at the checkout go; the others stay, in their order. */
    method RemoveExitingCustomers()
      requires Valid()
      modifies this
      ensures customers == old(Active(customers))
      ensures minutes == old(minutes) && lastId == old(lastId) && log == old(log)
      ensures Valid() && (old(Ordered()) ==> Ordered())
      ensures forall t :: old(UsesMatrix(t)) ==> UsesMatrix(t)
      ensures forall c :: c in customers ==> c in old(customers) && c.current != CHECKOUT
    {
      var active := Active(customers);
      ActiveSubsequence(customers);
      SubsequenceDistinct(active, customers);
      SubsequenceMembers(active, customers);
      if Ordered() {
        SubsequenceIncreasing(active, customers);
      }
      customers := active;
    }

    /**
     * Logs one row per customer present, in list order: the current time,
     * the customer's id, name and location. Earlier rows stay as they were.
     */
    method PrintCustomers()
      modifies this
      ensures customers == old(customers) && minutes == old(minutes) && lastId == old(lastId)
      ensures |log| == |old(log)| + |customers|
      ensures log[..|old(log)|] == old(log)
      ensures forall i :: 0 <= i < |customers| ==>
        log[|old(log)| + i] == LogRow(FormatClock(minutes), customers[i].id, customers[i].name, customers[i].current)
    {
      for i := 0 to |customers|
        invariant customers == old(customers) && minutes == old(minutes) && lastId == old(lastId)
        invariant |log| == |old(log)| + i
        invariant log[..|old(log)|] == old(log)
        invariant forall j :: 0 <= j < i ==>
          log[|old(log)| + j] == LogRow(FormatClock(minutes), customers[j].id, customers[j].name, customers[j].current)
      {
        var customer := customers[i];
        ghost var logged := log;
        log := log + [LogRow(GetTime(), customer.id, customer.name, customer.current)];
        assert log[..|logged|] == logged;
      }
    }

    /**
     * One minute of the simulation, in the order the main loop runs it:
     * move everyone, admit the arrivals, log everyone present, let the
     * checkout customers go. `present` is the list that is logged: the
     * moved customers followed by the arrivals.
     */
    method Tick(draws: seq<nat>, transitions: TransitionMatrix, n: int, names: seq<string>)
      returns (ghost present: seq<Customer>)
      requires Valid() && Ordered() && UsesMatrix(transitions) && |draws| == |customers|
      requires forall i :: 0 <= i < |draws| ==> draws[i] < |transitions.labels|
      requires Config.CUSTOMER_ARRIVAL_RATE.0 <= n < Config.CUSTOMER_ARRIVAL_RATE.1 && n <= |names|
      modifies this, customers
      ensures Valid() && Ordered() && UsesMatrix(transitions)
      ensures minutes == old(minutes) + 1 && lastId == old(lastId) + n
      ensures |present| == |old(customers)| + n && present[..|old(customers)|] == old(customers)
      ensures forall i :: 0 <= i < |old(customers)| ==>
        present[i].previous == old(customers[i].current) && present[i].current == transitions.labels[draws[i]]
      ensures forall i :: |old(customers)| <= i < |present| ==>
        fresh(present[i]) && present[i].id == old(lastId) + (i - |old(customers)|) &&
        present[i].name == names[i - |old(customers)|] && present[i].transitions == transitions &&
        present[i].current == ENTRANCE && present[i].previous == ENTRANCE
      ensures |log| == |old(log)| + |present| && log[..|old(log)|] == old(log)
      ensures forall i :: 0 <= i < |present| ==>
        log[|old(log)| + i] == LogRow(FormatClock(minutes), present[i].id, present[i].name, present[i].current)
      ensures customers == Active(present)
      ensures forall c :: c in customers ==> c in old(customers) || fresh(c)
      ensures forall c :: c in customers ==> c.current != CHECKOUT
    {
      MoveAndAdmit(draws, transitions, n, names);
      present := customers;
      LogAndRelease(present);
    }

    /** The first half of a minute: move everyone, then admit the arrivals at the end of the list. */
    method MoveAndAdmit(draws: seq<nat>, transitions: TransitionMatrix, n: int, names: seq<string>)
      requires Valid() && Ordered() && UsesMatrix(transitions) && |draws| == |customers|
      requires forall i :: 0 <= i < |draws| ==> draws[i] < |transitions.labels|
      requires Config.CUSTOMER_ARRIVAL_RATE.0 <= n < Config.CUSTOMER_ARRIVAL_RATE.1 && n <= |names|
      modifies this, customers
      ensures Valid() && Ordered() && UsesMatrix(transitions)
      ensures minutes == old(minutes) + 1 && lastId == old(lastId) + n && log == old(log)
      ensures |customers| == |old(customers)| + n && customers[..|old(customers)|] == old(customers)
      ensures forall i :: 0 <= i < |old(customers)| ==>
        customers[i].previous == old(customers[i].current) && customers[i].current == transitions.labels[draws[i]]
      ensures forall i :: |old(customers)| <= i < |customers| ==>
        fresh(customers[i]) && customers[i].id == old(lastId) + (i - |old(customers)|) &&
        customers[i].name == names[i - |old(customers)|] && customers[i].transitions == transitions &&
        customers[i].current == ENTRANCE && customers[i].previous == ENTRANCE
    {
      NextMinute(draws);
      ghost var moved := customers;
      AddNewCustomers(Config.CUSTOMER_ARRIVAL_RATE, transitions, n, names);
      forall i | 0 <= i < |moved| ensures customers[i] == moved[i] {
        assert customers[i] == customers[..|moved|][i];
      }
    }

    /**
     * The second half of a minute: log everyone present, then let the
     * checkout customers go. No customer changes.
     */
    method LogAndRelease(ghost present: seq<Customer>)
      requires Valid() && customers == present
      modifies this
      ensures customers == Active(present)
      ensures minutes == old(minutes) && lastId == old(lastId)
      ensures |log| == |old(log)| + |present| && log[..|old(log)|] == old(log)
      ensures forall i :: 0 <= i < |present| ==>
        log[|old(log)| + i] == LogRow(FormatClock(minutes), present[i].id, present[i].name, present[i].current)
      ensures forall i :: 0 <= i < |present| ==>
        present[i].current == old(present[i].current) && present[i].previous == old(present[i].previous)
      ensures Valid() && (old(Ordered()) ==> Ordered())
      ensures forall t :: old(UsesMatrix(t)) ==> UsesMatrix(t)
      ensures forall c :: c in customers ==> c.current != CHECKOUT
    {
      PrintCustomers();
      RemoveExitingCustomers();
    }
  }

  /** Appending an object that is not in a list without repeats keeps it without repeats. */
  lemma AppendFresh(cs: seq<Customer>, c: Customer)
    requires Distinct(cs) && c !in cs
    ensures Distinct(cs + [c])
  {
  }

  /** Consecutive ids from the old lastId, appended to an ordered list, keep it ordered. */
  lemma AddedInOrder(before: seq<Customer>, after: seq<Customer>, oldLast: int, newLast: int)
    requires IdsIncreasing(before) && forall i :: 0 <= i < |before| ==> before[i].id < oldLast
    requires |before| <= |after| && after[..|before|] == before
    requires forall i :: |before| <= i < |after| ==> after[i].id == oldLast + (i - |before|)
    requires newLast == oldLast + (|after| - |before|)
    ensures IdsIncreasing(after) && forall i :: 0 <= i < |after| ==> after[i].id < newLast
  {
    forall i | 0 <= i < |before| ensures after[i] == before[i] {
      assert after[i] == after[..|before|][i];
    }
  }

  /** The arrivals of the first k minutes, added up. */
  function TotalArrivals(arrivals: nat -> int, k: nat): int {
    if k == 0 then 0 else TotalArrivals(arrivals, k - 1) + arrivals(k - 1)
  }

  /**
   * The minute of every log row when minute m + 1 logs sizes[m] rows:
   * sizes[0] rows of minute 1, then sizes[1] rows of minute 2, and so on.
   */
  function Stamps(sizes: seq<nat>): (r: seq<nat>)
    ensures forall k :: 0 <= k < |r| ==> 1 <= r[k] <= |sizes|
    ensures forall i, j :: 0 <= i <= j < |r| ==> r[i] <= r[j]
  {
    if |sizes| == 0 then []
    else Stamps(sizes[..|sizes| - 1]) + seq(sizes[|sizes| - 1], _ => |sizes|)
  }

  /** Some row of the log shows customer `id` at the entrance. */
  ghost predicate ArrivalLogged(log: seq<LogRow>, id: int) {
    exists k :: 0 <= k < |log| && log[k].customerNo == id && log[k].location == ENTRANCE
  }

  /** Every id below `hi` has a log row showing that customer at the entrance. */
  ghost predicate ArrivalsLogged(log: seq<LogRow>, hi: int) {
    forall id :: 0 <= id < hi ==> ArrivalLogged(log, id)
  }

  /** Rows appended to a log keep the arrivals it already showed. */
  lemma ArrivalsStayLogged(before: seq<LogRow>, after: seq<LogRow>, lo: int, hi: int)
    requires |before| <= |after| && after[..|before|] == before && ArrivalsLogged(before, lo)
    requires forall id :: lo <= id < hi ==> ArrivalLogged(after, id)
    ensures ArrivalsLogged(after, hi)
  {
    forall id | 0 <= id < lo && id < hi ensures ArrivalLogged(after, id) {
      assert ArrivalLogged(before, id);
      var k :| 0 <= k < |before| && before[k].customerNo == id && before[k].location == ENTRANCE;
      assert after[k] == after[..|before|][k];
    }
  }

  /**
   * The whole simulation: a fresh supermarket runs SIMULATION_DURATION
   * ticks. In minute m, the customer at position p moves by draw
   * choose(m, p), arrivals(m) customers arrive and names(m) names them.
   * At the end the clock shows SIMULATION_DURATION minutes, lastId counts
   * every arrival, the ids still increase along the list, and no one
   * remains at the checkout. The log holds sizes[m] rows stamped with
   * minute m + 1 (at least that minute's arrivals), minute after minute,
   * and every customer who ever arrived has a row showing it at the
   * entrance.
   */
  method RunSimulation(transitions: TransitionMatrix, choose: (nat, nat) -> nat, arrivals: nat -> int,
                       names: nat -> seq<string>)
    returns (market: Supermarket, ghost sizes: seq<nat>)
    requires forall m, p :: choose(m, p) < |transitions.labels|
    requires forall m :: Config.CUSTOMER_ARRIVAL_RATE.0 <= arrivals(m) < Config.CUSTOMER_ARRIVAL_RATE.1
    requires forall m :: arrivals(m) <= |names(m)|
    ensures market.minutes == Config.SIMULATION_DURATION
    ensures market.lastId == TotalArrivals(arrivals, Config.SIMULATION_DURATION)
    ensures market.Valid() && market.Ordered() && market.UsesMatrix(transitions)
    ensures forall c :: c in market.customers ==> c.current != CHECKOUT
    ensures |sizes| == Config.SIMULATION_DURATION
    ensures forall m :: 0 <= m < |sizes| ==> sizes[m] >= arrivals(m)
    ensures |market.log| == |Stamps(sizes)|
    ensures forall k :: 0 <= k < |market.log| ==> market.log[k].timestamp == FormatClock(Stamps(sizes)[k])
    ensures ArrivalsLogged(market.log, market.lastId)
  {
    market := new Supermarket();
    sizes := [];
    for minute := 0 to Config.SIMULATION_DURATION
      invariant fresh(market) && forall i :: 0 <= i < |market.customers| ==> fresh(market.customers[i])
      invariant Running(market, transitions, arrivals, minute, sizes)
    {
      ghost var before := market.customers;
      label ticked:
      sizes := RunStep(market, transitions, choose, arrivals, minute, names(minute), sizes);
      forall i | 0 <= i < |market.customers| ensures fresh(market.customers[i]) {
        assert market.customers[i] in before || fresh@ticked(market.customers[i]);
      }
    }
  }

  /**
   * The run after `minute` minutes: the clock shows them, lastId counts
   * their arrivals, the list invariants hold, nobody is at the checkout,
   * minute m + 1 logged sizes[m] rows (at least its arrivals) stamped with
   * its clock, and every customer who arrived has a row at the entrance.
   */
  ghost predicate Running(market: Supermarket, transitions: TransitionMatrix, arrivals: nat -> int, minute: nat,
                          sizes: seq<nat>)
    reads market, market.customers
  {
    market.minutes == minute && market.lastId == TotalArrivals(arrivals, minute) &&
    market.Valid() && market.Ordered() && market.UsesMatrix(transitions) &&
    (forall c :: c in market.customers ==> c.current != CHECKOUT) &&
    |sizes| == minute && (forall m :: 0 <= m < minute ==> sizes[m] >= arrivals(m)) &&
    StampedBy(market.log, sizes) && ArrivalsLogged(market.log, market.lastId)
  }

  /**
   * Minute `minute` + 1 of the run, as the loop takes it: the run's state
   * holds one minute later, with the minute's block of log rows added to
   * `sizes`.
   */
  method RunStep(market: Supermarket, transitions: TransitionMatrix, choose: (nat, nat) -> nat,
                 arrivals: nat -> int, minute: nat, names: seq<string>, ghost sizes: seq<nat>)
    returns (ghost grown: seq<nat>)
    requires Running(market, transitions, arrivals, minute, sizes)
    requires forall m, p :: choose(m, p) < |transitions.labels|
    requires Config.CUSTOMER_ARRIVAL_RATE.0 <= arrivals(minute) < Config.CUSTOMER_ARRIVAL_RATE.1
    requires arrivals(minute) <= |names|
    modifies market, market.customers
    ensures Running(market, transitions, arrivals, minute + 1, grown)
    ensures forall c :: c in market.customers ==> c in old(market.customers) || fresh(c)
  {
    ghost var oldLog, oldLast := market.log, market.lastId;
    ghost var rows := RunMinute(market, transitions, choose, minute, arrivals(minute), names);
    LogStamps(oldLog, market.log, sizes, rows, oldLast, market.lastId);
    grown := sizes + [rows];
    forall m | 0 <= m < minute + 1 ensures grown[m] >= arrivals(m) {
      if m < minute {
        assert grown[m] == sizes[m];
      }
    }
  }

  /**
   * Minute `minute` + 1 of the run: the customer at position p moves by
   * draw choose(minute, p) and n customers arrive. The tick logs `rows`
   * rows, at least one per arrival, all stamped with the new minute, and
   * each arrival has a row showing it at the entrance.
   */
  method RunMinute(market: Supermarket, transitions: TransitionMatrix, choose: (nat, nat) -> nat, minute: nat,
                   n: int, names: seq<string>)
    returns (ghost rows: nat)
    requires market.Valid() && market.Ordered() && market.UsesMatrix(transitions) && market.minutes == minute
    requires forall m, p :: choose(m, p) < |transitions.labels|
    requires Config.CUSTOMER_ARRIVAL_RATE.0 <= n < Config.CUSTOMER_ARRIVAL_RATE.1 && n <= |names|
    modifies market, market.customers
    ensures market.Valid() && market.Ordered() && market.UsesMatrix(transitions)
    ensures forall c :: c in market.customers ==> c.current != CHECKOUT
    ensures forall c :: c in market.customers ==> c in old(market.customers) || fresh(c)
    ensures market.minutes == minute + 1 && market.lastId == old(market.lastId) + n && rows >= n
    ensures MinuteAppended(old(market.log), market.log, rows, minute + 1, old(market.lastId), market.lastId)
  {
    var draws := seq(|market.customers|, p requires 0 <= p => choose(minute, p));
    ghost var waiting, oldLog, oldLast := |market.customers|, market.log, market.lastId;
    ghost var present := market.Tick(draws, transitions, n, names);
    rows := |present|;
    MinuteStamped(oldLog, market.log, present, market.minutes);
    MinuteArrivals(oldLog, market.log, present, FormatClock(market.minutes), waiting, oldLast);
  }

  /**
   * The rows a tick appends, one per customer present, all carry the
   * tick's clock.
   */
  lemma MinuteStamped(before: seq<LogRow>, after: seq<LogRow>, present: seq<Customer>, minute: nat)
    requires |after| == |before| + |present|
    requires forall i :: 0 <= i < |present| ==>
      after[|before| + i] == LogRow(FormatClock(minute), present[i].id, present[i].name, present[i].current)
    ensures forall k :: |before| <= k < |after| ==> after[k].timestamp == FormatClock(minute)
  {
    forall k | |before| <= k < |after| ensures after[k].timestamp == FormatClock(minute) {
      var i := k - |before|;
      assert after[|before| + i] == LogRow(FormatClock(minute), present[i].id, present[i].name, present[i].current);
    }
  }

  /**
   * The customers that arrived in a tick (the ones after position
   * `waiting`) each have a row at the entrance among the rows it appends.
   */
  lemma MinuteArrivals(before: seq<LogRow>, after: seq<LogRow>, present: seq<Customer>, stamp: string,
                       waiting: nat, firstId: int)
    requires |after| == |before| + |present| && waiting <= |present|
    requires forall i :: 0 <= i < |present| ==>
      after[|before| + i] == LogRow(stamp, present[i].id, present[i].name, present[i].current)
    requires forall i :: waiting <= i < |present| ==>
      present[i].id == firstId + (i - waiting) && present[i].current == ENTRANCE
    ensures forall id :: firstId <= id < firstId + (|present| - waiting) ==> ArrivalLogged(after, id)
  {
    forall id | firstId <= id < firstId + (|present| - waiting) ensures ArrivalLogged(after, id) {
      var i := waiting + (id - firstId);
      assert after[|before| + i] == LogRow(stamp, present[i].id, present[i].name, present[i].current);
    }
  }

  /**
   * `after` is `before` with `rows` more rows, all stamped with `minute`,
   * among them an entrance row for every id from `lo` up to `hi`.
   */
  ghost predicate MinuteAppended(before: seq<LogRow>, after: seq<LogRow>, rows: nat, minute: nat, lo: int, hi: int) {
    |after| == |before| + rows && after[..|before|] == before &&
    (forall k :: |before| <= k < |after| ==> after[k].timestamp == FormatClock(minute)) &&
    forall id :: lo <= id < hi ==> ArrivalLogged(after, id)
  }

  /** The log is stamped block by block: sizes[m] rows of minute m + 1, minute after minute. */
  ghost predicate StampedBy(log: seq<LogRow>, sizes: seq<nat>) {
    |log| == |Stamps(sizes)| && forall k :: 0 <= k < |log| ==> log[k].timestamp == FormatClock(Stamps(sizes)[k])
  }

  /**
   * Appending one more minute's block to a log stamped by `sizes` gives a
   * log stamped by `sizes` with that block added, and every arrival logged
   * before stays logged.
   */
  lemma LogStamps(before: seq<LogRow>, after: seq<LogRow>, sizes: seq<nat>, n: nat, lo: int, hi: int)
    requires StampedBy(before, sizes) && ArrivalsLogged(before, lo)
    requires MinuteAppended(before, after, n, |sizes| + 1, lo, hi)
    ensures StampedBy(after, sizes + [n]) && ArrivalsLogged(after, hi)
  {
    var grown := sizes + [n];
    assert grown[..|grown| - 1] == sizes;
    assert Stamps(grown) == Stamps(sizes) + seq(n, _ => |sizes| + 1);
    forall k | 0 <= k < |before| ensures after[k] == before[k] {
      assert after[k] == after[..|before|][k];
    }
    ArrivalsStayLogged(before, after, lo, hi);
  }

}
