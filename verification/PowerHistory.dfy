/** The PSU power history: six bounded tables overwritten in turn, fed by three cascaded counters. */
module PowerHistory {

  const LAST_MIN_COUNT := 30
  const LAST_HOUR_COUNT := 600
  const LAST_DAY_COUNT := 1440

  datatype Sample = Sample(watt: int, time: string)

  // ----- One table -----

  /** A table's rows by id, and the id the next overwrite goes to. */
  datatype Ring = Ring(rows: seq<Sample>, cursor: nat)

  /** find_first_index on an empty table */
  const EmptyRing := Ring([], 1)

  predicate InRange(r: Ring, limit: nat) {
    |r.rows| <= limit && 1 <= r.cursor <= limit
  }

  /** INSERT while there is room; then UPDATE at the cursor, which moves on and wraps. */
  function Write(r: Ring, s: Sample, limit: nat): (q: Ring)
    requires InRange(r, limit)
    ensures InRange(q, limit)
  {
    if |r.rows| < limit then r.(rows := r.rows + [s])
    else Ring(r.rows[r.cursor - 1 := s], if r.cursor < limit then r.cursor + 1 else 1)
  }

  function Fill(log: seq<Sample>, limit: nat): (r: Ring)
    requires limit > 0
    ensures InRange(r, limit)
  {
    if log == [] then EmptyRing else Write(Fill(log[..|log| - 1], limit), log[|log| - 1], limit)
  }

  function Last(log: seq<Sample>, n: nat): seq<Sample> {
    if |log| <= n then log else log[|log| - n..]
  }

  /** The rows from the cursor on, then those before it. */
  function Rotated(r: Ring): seq<Sample>
    requires 1 <= r.cursor <= |r.rows| + 1
  {
    r.rows[r.cursor - 1..] + r.rows[..r.cursor - 1]
  }

  /** After any number of writes a table holds exactly the last ones its limit allows,
      and reading from the cursor round gives them oldest first. */
  lemma {:induction false} FillKeepsLast(log: seq<Sample>, limit: nat)
    requires limit > 0
    ensures var r := Fill(log, limit);
      && (|log| <= limit ==> r == Ring(log, 1))
      && |r.rows| == |Last(log, limit)| && r.cursor <= |r.rows| + 1
      && Rotated(r) == Last(log, limit)
  {
    if log == [] {
    } else {
      var init, s := log[..|log| - 1], log[|log| - 1];
      FillKeepsLast(init, limit);
      if |log| <= limit {
        assert init + [s] == log;
        assert Fill(log, limit) == Ring(log, 1);
        assert Rotated(Ring(log, 1)) == log;
      } else {
        WriteRotates(Fill(init, limit), s, limit);
        LastStep(log, limit);
      }
    }
  }

  /** The cursor after n writes to an empty table. */
  function CursorAfter(n: nat, limit: nat): nat
    requires limit > 0
  {
    if n < limit then 1 else (n - limit) % limit + 1
  }

  lemma CursorStep(n: nat, limit: nat)
    requires limit > 0
    ensures CursorAfter(n, limit) <= limit
    ensures CursorAfter(n + 1, limit)
         == if n < limit then 1 else if CursorAfter(n, limit) < limit then CursorAfter(n, limit) + 1 else 1
  {
    if n >= limit {
      RemainderStep(n - limit, limit);
    } else {
      QuotientIs(0, limit, 0, 0);
    }
  }

  /** Cursor and number of rows depend on how many writes there were and on nothing else. */
  lemma {:induction false} FillShape(log: seq<Sample>, limit: nat)
    requires limit > 0
    ensures |Fill(log, limit).rows| == if |log| < limit then |log| else limit
    ensures Fill(log, limit).cursor == CursorAfter(|log|, limit)
  {
    if log != [] {
      FillShape(log[..|log| - 1], limit);
      CursorStep(|log| - 1, limit);
    }
  }

  lemma RemainderStep(x: nat, p: nat)
    requires p > 0
    ensures (x + 1) % p == if x % p + 1 == p then 0 else x % p + 1
  {
    var q, r := x / p, x % p;
    assert x == q * p + r;
    if r + 1 == p {
      assert x + 1 == (q + 1) * p;
      QuotientIs(x + 1, p, q + 1, 0);
    } else {
      QuotientIs(x + 1, p, q, r + 1);
    }
  }

  lemma LastStep(log: seq<Sample>, limit: nat)
    requires limit > 0 && |log| > limit
    ensures Last(log, limit) == Last(log[..|log| - 1], limit)[1..] + [log[|log| - 1]]
  {}

  /** Overwriting a full table drops the oldest row and puts the new one last. */
  lemma WriteRotates(r: Ring, s: Sample, limit: nat)
    requires InRange(r, limit) && |r.rows| == limit
    ensures Rotated(Write(r, s, limit)) == Rotated(r)[1..] + [s]
  {
    var q := Write(r, s, limit);
    if r.cursor < limit {
      assert q.rows[q.cursor - 1..] == r.rows[r.cursor..];
      assert q.rows[..q.cursor - 1] == r.rows[..r.cursor - 1] + [s];
    } else {
      assert q.rows == r.rows[..r.cursor - 1] + [s];
    }
  }

  // ----- The cascade -----

  datatype Counters = Counters(m: nat, h: nat, d: nat)

  predicate MinuteDue(c: Counters) { c.m > 2 }
  predicate HourDue(c: Counters) { MinuteDue(c) && c.h > 3 }
  predicate DayDue(c: Counters) { HourDue(c) && c.d > 10 }

  function Tick(c: Counters): Counters {
    Counters(if MinuteDue(c) then 1 else c.m + 1,
             if HourDue(c) then 1 else if MinuteDue(c) then c.h + 1 else c.h,
             if DayDue(c) then 1 else if HourDue(c) then c.d + 1 else c.d)
  }

  function After(n: nat): Counters {
    if n == 0 then Counters(0, 0, 0) else Tick(After(n - 1))
  }

  /** Call k, counted from 0, is one of start, start + period, start + 2 * period and so on. */
  predicate Due(k: nat, start: nat, period: nat)
    requires period > 0
  {
    k >= start && (k - start) % period == 0
  }

  const MINUTE_START := 3
  const MINUTE_PERIOD := 3
  const HOUR_START := 15
  const HOUR_PERIOD := 12
  const DAY_START := 147
  const DAY_PERIOD := 132

  /** How many of the first n calls are due. */
  function Writes(n: nat, start: nat, period: nat): nat
    requires period > 0
  {
    if n == 0 then 0 else Writes(n - 1, start, period) + if Due(n - 1, start, period) then 1 else 0
  }

  lemma {:induction false} WritesClosedForm(n: nat, start: nat, period: nat)
    requires period > 0
    ensures Writes(n, start, period) == if n <= start then 0 else (n - 1 - start) / period + 1
  {
    if n > 0 {
      WritesClosedForm(n - 1, start, period);
      if n > start + 1 {
        DivStep(n - 2 - start, period);
      }
    }
  }

  lemma DivStep(x: nat, p: nat)
    requires p > 0
    ensures (x + 1) / p == x / p + if (x + 1) % p == 0 then 1 else 0
  {
    var q, r := x / p, x % p;
    assert x == q * p + r;
    if r + 1 == p {
      assert x + 1 == (q + 1) * p;
      QuotientIs(x + 1, p, q + 1, 0);
    } else {
      QuotientIs(x + 1, p, q, r + 1);
    }
  }

  lemma QuotientIs(x: nat, p: nat, q: nat, r: nat)
    requires r < p && x == q * p + r
    ensures x / p == q && x % p == r
  {
    var d := x / p - q;
    assert x == (x / p) * p + x % p;
    assert d * p == r - x % p;
    assert d >= 1 ==> d * p >= p;
    assert d <= -1 ==> d * p + p <= 0;
  }

  /** The counters after n calls, by the numbers w, v and u of writes so far. */
  predicate Placed(n: nat, c: Counters, w: nat, v: nat, u: nat) {
    && (if n == 0 then c.m == 0 && w == 0 else 1 <= c.m <= 3 && n == 3 * w + c.m)
    && (if w == 0 then c.h == 0 && v == 0 else 1 <= c.h <= 4 && w == 4 * v + c.h)
    && (if v == 0 then c.d == 0 && u == 0 else 1 <= c.d <= 11 && v == 11 * u + c.d)
  }

  lemma PlacedStep(n: nat, c: Counters, w: nat, v: nat, u: nat)
    requires Placed(n, c, w, v, u)
    ensures Placed(n + 1, Tick(c), w + (if MinuteDue(c) then 1 else 0), v + (if HourDue(c) then 1 else 0),
                   u + (if DayDue(c) then 1 else 0))
  {}

  /** n == start + period * q + r - period with 1 <= r <= period: only the last r is due. */
  lemma DueAt(n: nat, start: nat, period: nat, q: nat, r: nat)
    requires 1 <= r <= period && n + period == start + q * period + r
    ensures Due(n, start, period) <==> r == period
  {
    if r == period {
      QuotientIs(n - start, period, q, 0);
    } else if n >= start {
      assert q >= 1 by { assert q == 0 ==> q * period == 0; }
      assert n - start == (q - 1) * period + r;
      QuotientIs(n - start, period, q - 1, r);
    }
  }

  lemma PlacedDue(n: nat, c: Counters, w: nat, v: nat, u: nat)
    requires Placed(n, c, w, v, u)
    ensures MinuteDue(c) <==> Due(n, MINUTE_START, MINUTE_PERIOD)
    ensures HourDue(c) <==> Due(n, HOUR_START, HOUR_PERIOD)
    ensures DayDue(c) <==> Due(n, DAY_START, DAY_PERIOD)
  {
    MinuteDueAt(n, c, w);
    HourDueAt(n, c, w, v);
    DayDueAt(n, c, w, v, u);
  }

  lemma MinuteDueAt(n: nat, c: Counters, w: nat)
    requires if n == 0 then c.m == 0 && w == 0 else 1 <= c.m <= 3 && n == 3 * w + c.m
    ensures MinuteDue(c) <==> Due(n, MINUTE_START, MINUTE_PERIOD)
  {
    if n > 0 {
      DueAt(n, MINUTE_START, MINUTE_PERIOD, w, c.m);
    }
  }

  lemma HourDueAt(n: nat, c: Counters, w: nat, v: nat)
    requires if n == 0 then c.m == 0 && w == 0 else 1 <= c.m <= 3 && n == 3 * w + c.m
    requires if w == 0 then c.h == 0 && v == 0 else 1 <= c.h <= 4 && w == 4 * v + c.h
    ensures HourDue(c) <==> Due(n, HOUR_START, HOUR_PERIOD)
  {
    if w > 0 {
      DueAt(n, HOUR_START, HOUR_PERIOD, v, 3 * (c.h - 1) + c.m);
    }
  }

  lemma DayDueAt(n: nat, c: Counters, w: nat, v: nat, u: nat)
    requires Placed(n, c, w, v, u)
    ensures DayDue(c) <==> Due(n, DAY_START, DAY_PERIOD)
  {
    if v > 0 {
      DueAt(n, DAY_START, DAY_PERIOD, u, 12 * (c.d - 1) + 3 * (c.h - 1) + c.m);
    }
  }

  ghost predicate InPlace(n: nat, c: Counters) {
    Placed(n, c, Writes(n, MINUTE_START, MINUTE_PERIOD), Writes(n, HOUR_START, HOUR_PERIOD),
           Writes(n, DAY_START, DAY_PERIOD))
  }

  /** The counters let exactly the due calls write: every third call fills the minute tables, every twelfth the hour
      tables and every 132nd the day tables, each series from its own first call on. */
  lemma {:induction false} Cascade(n: nat)
    ensures InPlace(n, After(n))
    ensures MinuteDue(After(n)) <==> Due(n, MINUTE_START, MINUTE_PERIOD)
    ensures HourDue(After(n)) <==> Due(n, HOUR_START, HOUR_PERIOD)
    ensures DayDue(After(n)) <==> Due(n, DAY_START, DAY_PERIOD)
  {
    if n > 0 {
      Cascade(n - 1);
      CascadeStep(n - 1, After(n - 1));
    }
    PlacedDue(n, After(n), Writes(n, MINUTE_START, MINUTE_PERIOD), Writes(n, HOUR_START, HOUR_PERIOD),
              Writes(n, DAY_START, DAY_PERIOD));
  }

  lemma CascadeStep(n: nat, c: Counters)
    requires InPlace(n, c)
    ensures InPlace(n + 1, Tick(c))
  {
    var w, v := Writes(n, MINUTE_START, MINUTE_PERIOD), Writes(n, HOUR_START, HOUR_PERIOD);
    var u := Writes(n, DAY_START, DAY_PERIOD);
    PlacedStep(n, c, w, v, u);
    PlacedDue(n, c, w, v, u);
  }

  /** The number of writes to each kind of table after n calls. */
  lemma {:induction false} WriteCounts(n: nat)
    ensures Writes(n, MINUTE_START, MINUTE_PERIOD) == if n < 1 then 0 else (n - 1) / 3
    ensures Writes(n, HOUR_START, HOUR_PERIOD) == if n < 4 then 0 else (n - 4) / 12
    ensures Writes(n, DAY_START, DAY_PERIOD) == if n < 16 then 0 else (n - 16) / 132
  {
    WritesClosedForm(n, MINUTE_START, MINUTE_PERIOD);
    WritesClosedForm(n, HOUR_START, HOUR_PERIOD);
    WritesClosedForm(n, DAY_START, DAY_PERIOD);
  }

  // ----- Which samples a table has been given -----

  /** The samples of the due calls, in order. */
  function Picked(taken: seq<Sample>, n: nat, start: nat, period: nat): (r: seq<Sample>)
    requires n <= |taken| && period > 0
    ensures |r| == Writes(n, start, period)
  {
    if n == 0 then []
    else
      var before := Picked(taken, n - 1, start, period);
      if Due(n - 1, start, period) then before + [taken[n - 1]] else before
  }

  /** The i-th sample a table was given is the one of call start + i * period. */
  lemma {:induction false} PickedAt(taken: seq<Sample>, n: nat, start: nat, period: nat, i: nat)
    requires n <= |taken| && period > 0 && i < Writes(n, start, period)
    ensures start + i * period < n && Picked(taken, n, start, period)[i] == taken[start + i * period]
  {
    if i < Writes(n - 1, start, period) {
      PickedAt(taken, n - 1, start, period, i);
    } else {
      WritesClosedForm(n - 1, start, period);
      DueIndex(n - 1, start, period);
    }
  }

  lemma DueIndex(k: nat, start: nat, period: nat)
    requires period > 0 && Due(k, start, period)
    ensures k == start + Writes(k, start, period) * period
  {
    var q := (k - start) / period;
    assert k - start == q * period;
    WritesBefore(k, start, period, q);
  }

  /** Just before the call of number start + q * period, q calls have been due. */
  lemma WritesBefore(k: nat, start: nat, period: nat, q: nat)
    requires period > 0 && k == start + q * period
    ensures Writes(k, start, period) == q
  {
    WritesClosedForm(k, start, period);
    if q > 0 {
      assert q * period == (q - 1) * period + period;
      QuotientIs(k - 1 - start, period, q - 1, period - 1);
    }
  }

  lemma {:induction false} PickedPrefix(taken: seq<Sample>, s: Sample, n: nat, start: nat, period: nat)
    requires n <= |taken| && period > 0
    ensures Picked(taken + [s], n, start, period) == Picked(taken, n, start, period)
  {
    if n > 0 {
      PickedPrefix(taken, s, n - 1, start, period);
    }
  }

  function Put(due: bool, r: Ring, s: Sample, limit: nat): (q: Ring)
    requires InRange(r, limit)
    ensures InRange(q, limit)
  {
    if due then Write(r, s, limit) else r
  }

  datatype Kind = Minute | Hour | Day

  function Limit(k: Kind): nat {
    match k case Minute => LAST_MIN_COUNT case Hour => LAST_HOUR_COUNT case Day => LAST_DAY_COUNT
  }

  function Start(k: Kind): nat {
    match k case Minute => MINUTE_START case Hour => HOUR_START case Day => DAY_START
  }

  function Period(k: Kind): nat {
    match k case Minute => MINUTE_PERIOD case Hour => HOUR_PERIOD case Day => DAY_PERIOD
  }

  predicate DueFor(k: Kind, c: Counters) {
    match k case Minute => MinuteDue(c) case Hour => HourDue(c) case Day => DayDue(c)
  }

  /** What a table of this kind holds after the calls whose samples were taken, as the counters direct. */
  function Stored(taken: seq<Sample>, kind: Kind): (r: Ring)
    ensures InRange(r, Limit(kind))
    decreases |taken|
  {
    if taken == [] then EmptyRing
    else
      var n := |taken| - 1;
      Put(DueFor(kind, After(n)), Stored(taken[..n], kind), taken[n], Limit(kind))
  }

  lemma PickedStep(taken: seq<Sample>, start: nat, period: nat)
    requires taken != [] && period > 0
    ensures var n := |taken| - 1;
      Picked(taken, n + 1, start, period)
      == if Due(n, start, period) then Picked(taken[..n], n, start, period) + [taken[n]]
         else Picked(taken[..n], n, start, period)
  {
    var n := |taken| - 1;
    assert taken[..n] + [taken[n]] == taken;
    PickedPrefix(taken[..n], taken[n], n, start, period);
  }

  lemma FillStep(log: seq<Sample>, s: Sample, limit: nat)
    requires limit > 0
    ensures Fill(log + [s], limit) == Write(Fill(log, limit), s, limit)
  {
    assert (log + [s])[..|log|] == log;
  }

  lemma CascadeFor(kind: Kind, n: nat)
    ensures DueFor(kind, After(n)) <==> Due(n, Start(kind), Period(kind))
  {
    Cascade(n);
  }

  lemma {:induction false} StoredIsFilled(taken: seq<Sample>, kind: Kind)
    ensures Stored(taken, kind) == Fill(Picked(taken, |taken|, Start(kind), Period(kind)), Limit(kind))
    decreases |taken|
  {
    if taken != [] {
      var n := |taken| - 1;
      StoredIsFilled(taken[..n], kind);
      CascadeFor(kind, n);
      PickedStep(taken, Start(kind), Period(kind));
      FillStep(Picked(taken[..n], n, Start(kind), Period(kind)), taken[n], Limit(kind));
    }
  }

  /** After any number of calls a table holds the last samples of its own series of calls, as many as its limit allows,
      oldest first from the cursor round. */
  lemma TableHoldsLast(taken: seq<Sample>, kind: Kind)
    ensures var r := Stored(taken, kind);
      && r.cursor <= |r.rows| + 1
      && Rotated(r) == Last(Picked(taken, |taken|, Start(kind), Period(kind)), Limit(kind))
  {
    StoredIsFilled(taken, kind);
    FillKeepsLast(Picked(taken, |taken|, Start(kind), Period(kind)), Limit(kind));
  }

  function Smaller(a: nat, b: nat): nat {
    if a < b then a else b
  }

  /** How full the tables are after a number of calls: a minute table takes 30 rows, an hour table 600, a day
      table 1440. */
  lemma RowCounts(taken: seq<Sample>)
    ensures var n := |taken|;
      && |Stored(taken, Minute).rows| == Smaller(if n < 1 then 0 else (n - 1) / 3, 30)
      && |Stored(taken, Hour).rows| == Smaller(if n < 4 then 0 else (n - 4) / 12, 600)
      && |Stored(taken, Day).rows| == Smaller(if n < 16 then 0 else (n - 16) / 132, 1440)
  {
    WriteCounts(|taken|);
    RowsOf(taken, Minute);
    RowsOf(taken, Hour);
    RowsOf(taken, Day);
  }

  lemma RowsOf(taken: seq<Sample>, kind: Kind)
    ensures |Stored(taken, kind).rows| == Smaller(Writes(|taken|, Start(kind), Period(kind)), Limit(kind))
  {
    StoredIsFilled(taken, kind);
    FillShape(Picked(taken, |taken|, Start(kind), Period(kind)), Limit(kind));
  }

  /** The two supplies' tables of a kind go in lockstep: the same cursor and as many rows after any calls. */
  lemma Lockstep(taken1: seq<Sample>, taken2: seq<Sample>, kind: Kind)
    requires |taken1| == |taken2|
    ensures Stored(taken1, kind).cursor == Stored(taken2, kind).cursor
    ensures |Stored(taken1, kind).rows| == |Stored(taken2, kind).rows|
  {
    StoredIsFilled(taken1, kind);
    StoredIsFilled(taken2, kind);
    FillShape(Picked(taken1, |taken1|, Start(kind), Period(kind)), Limit(kind));
    FillShape(Picked(taken2, |taken2|, Start(kind), Period(kind)), Limit(kind));
  }

  // ----- The program -----

  /** A database table together with the cursor the program keeps for it. */
  class Table {
    const limit: nat
    var rows: seq<Sample>
    var cursor: nat

    ghost function State(): Ring
      reads this
    {
      Ring(rows, cursor)
    }

    constructor (limit: nat)
      ensures this.limit == limit && State() == EmptyRing
    {
      this.limit := limit;
      rows := [];
      cursor := 1;
    }

    method Put(s: Sample)
      requires InRange(State(), limit)
      modifies this
      ensures State() == Write(old(State()), s, limit)
    {
      if |rows| < limit {
        rows := rows + [s];
      } else {
        rows := rows[cursor - 1 := s];
        if cursor < limit {
          cursor := cursor + 1;
        } else {
          cursor := 1;
        }
      }
    }
  }

  class PowerMonitor {
    var countM: nat
    var countH: nat
    var countD: nat
    var powerWatt: array<int>
    const min1: Table
    const min2: Table
    const hour1: Table
    const hour2: Table
    const day1: Table
    const day2: Table

    ghost var taken1: seq<Sample>   // the samples of every call so far, for each supply
    ghost var taken2: seq<Sample>

    ghost function Tables(): set<object> {
      {min1, min2, hour1, hour2, day1, day2}
    }

    ghost predicate Apart() {
      && min1 !in {min2, hour1, hour2, day1, day2} && min2 !in {hour1, hour2, day1, day2}
      && hour1 !in {hour2, day1, day2} && hour2 !in {day1, day2} && day1 != day2
      && min1.limit == min2.limit == LAST_MIN_COUNT && hour1.limit == hour2.limit == LAST_HOUR_COUNT
      && day1.limit == day2.limit == LAST_DAY_COUNT
    }

    ghost function Count(): Counters
      reads this`countM, this`countH, this`countD
    {
      Counters(countM, countH, countD)
    }

    /** The counters are those of the cascade and each table holds what the cascade gives it. */
    ghost predicate Valid()
      reads this, Tables()
    {
      && Apart() && powerWatt.Length == 2
      && |taken1| == |taken2|
      && Count() == After(|taken1|)
      && min1.State() == Stored(taken1, Minute)
      && min2.State() == Stored(taken2, Minute)
      && hour1.State() == Stored(taken1, Hour)
      && hour2.State() == Stored(taken2, Hour)
      && day1.State() == Stored(taken1, Day)
      && day2.State() == Stored(taken2, Day)
    }

    constructor ()
      ensures Valid() && taken1 == [] && fresh(Tables()) && fresh(powerWatt)
    {
      countM, countH, countD := 0, 0, 0;
      powerWatt := new int[2](_ => 0);
      min1 := new Table(LAST_MIN_COUNT);
      min2 := new Table(LAST_MIN_COUNT);
      hour1 := new Table(LAST_HOUR_COUNT);
      hour2 := new Table(LAST_HOUR_COUNT);
      day1 := new Table(LAST_DAY_COUNT);
      day2 := new Table(LAST_DAY_COUNT);
      taken1, taken2 := [], [];
    }

    /** A supply reading of 13 W with the power off is an artefact. */
    static function Reading(watt: int, powerGood: bool): int {
      if !powerGood && watt == 13 then 0 else watt
    }

    /** The artefact taken out of both readings. */
    method Correct(powerGood: bool)
      requires powerWatt.Length == 2
      modifies powerWatt
      ensures powerWatt[0] == Reading(old(powerWatt[0]), powerGood)
      ensures powerWatt[1] == Reading(old(powerWatt[1]), powerGood)
    {
      if !powerGood {
        if powerWatt[0] == 13 {
          powerWatt[0] := 0;
        }
        if powerWatt[1] == 13 {
          powerWatt[1] := 0;
        }
      }
    }

    method DoStuff(powerGood: bool, time: string)
      requires Valid()
      modifies this, powerWatt, Tables()
      ensures Valid()
      ensures powerWatt == old(powerWatt)
      ensures forall p :: 0 <= p < 2 ==>
        powerWatt[p] == if !powerGood && old(powerWatt[p]) == 13 then 0 else old(powerWatt[p])
      ensures taken1 == old(taken1) + [Sample(powerWatt[0] * 10, time)]
      ensures taken2 == old(taken2) + [Sample(powerWatt[1] * 10, time)]
    {
      Correct(powerGood);
      Record(Sample(powerWatt[0] * 10, time), Sample(powerWatt[1] * 10, time));
    }

    /** In every reachable state both supplies' tables have the same cursors and sizes. */
    lemma TablesInLockstep()
      requires Valid()
      ensures min1.cursor == min2.cursor && |min1.rows| == |min2.rows|
      ensures hour1.cursor == hour2.cursor && |hour1.rows| == |hour2.rows|
      ensures day1.cursor == day2.cursor && |day1.rows| == |day2.rows|
    {
      Lockstep(taken1, taken2, Minute);
      Lockstep(taken1, taken2, Hour);
      Lockstep(taken1, taken2, Day);
    }

    ghost predicate TablesInRange()
      reads Tables()
    {
      && InRange(min1.State(), LAST_MIN_COUNT) && InRange(min2.State(), LAST_MIN_COUNT)
      && InRange(hour1.State(), LAST_HOUR_COUNT) && InRange(hour2.State(), LAST_HOUR_COUNT)
      && InRange(day1.State(), LAST_DAY_COUNT) && InRange(day2.State(), LAST_DAY_COUNT)
    }

    /** The three nested counters. */
    method Advance(s1: Sample, s2: Sample)
      requires Apart() && TablesInRange()
      modifies this`countM, this`countH, this`countD, Tables()
      ensures Count() == Tick(old(Count()))
      ensures min1.State() == Put(MinuteDue(old(Count())), old(min1.State()), s1, LAST_MIN_COUNT)
      ensures min2.State() == Put(MinuteDue(old(Count())), old(min2.State()), s2, LAST_MIN_COUNT)
      ensures hour1.State() == Put(HourDue(old(Count())), old(hour1.State()), s1, LAST_HOUR_COUNT)
      ensures hour2.State() == Put(HourDue(old(Count())), old(hour2.State()), s2, LAST_HOUR_COUNT)
      ensures day1.State() == Put(DayDue(old(Count())), old(day1.State()), s1, LAST_DAY_COUNT)
      ensures day2.State() == Put(DayDue(old(Count())), old(day2.State()), s2, LAST_DAY_COUNT)
    {
      if countM > 2 {
        min1.Put(s1);
        min2.Put(s2);
        if countH > 3 {
          hour1.Put(s1);
          hour2.Put(s2);
          if countD > 10 {
            day1.Put(s1);
            day2.Put(s2);
            countD := 0;
          }
          countH := 0;
          countD := countD + 1;
        }
        countM := 0;
        countH := countH + 1;
      }
      countM := countM + 1;
    }

    method Record(s1: Sample, s2: Sample)
      requires Valid()
      modifies this`countM, this`countH, this`countD, this`taken1, this`taken2, Tables()
      ensures Valid() && taken1 == old(taken1) + [s1] && taken2 == old(taken2) + [s2]
    {
      Advance(s1, s2);
      assert (taken1 + [s1])[..|taken1|] == taken1 && (taken2 + [s2])[..|taken2|] == taken2;
      taken1, taken2 := taken1 + [s1], taken2 + [s2];
    }
  }
}
