/** The daily acquisition counts: `aggregate_cons_data` turns each person's `created_dt`
    into a calendar date, groups the people by that date and counts each group. */
module Aggregate {
  import opened Wrappers
  import opened Seqs
  import opened Values
  import opened Frames
  import Transform

  /** A calendar date, ordered by year, then month, then day. */
  datatype Date = Date(year: int, month: int, day: int)

  predicate Before(a: Date, b: Date) {
    a.year < b.year || (a.year == b.year && (a.month < b.month || (a.month == b.month && a.day < b.day)))
  }

  /** What `pd.to_datetime(cell).dt.date` makes of one cell: no date (`NaT`), a day, or
      an error that aborts the run. */
  datatype Stamp = NaT | Day(date: Date) | Unparseable

  /** One row of the aggregate: `acquisition_date` and `acquisitions`. */
  datatype Acquisition = Acquisition(date: Date, count: nat)

  datatype AggregateError =
    | Frame(err: FrameError)       // the `created_dt` column is missing
    | DateParseFailure(cell: Value) // the first cell the date parser rejects

  /** The date conversion. Its treatment of non-empty cells is a parameter of the model;
      an empty cell is always `NaT`. */
  function DayOf(parse: Value -> Stamp, v: Value): (r: Stamp)
    ensures v.Null? ==> r == NaT
  {
    if v.Null? then NaT else parse(v)
  }

  /** The cells of column `c`, top to bottom. */
  function Column(t: Table, c: string): (r: seq<Value>)
    requires WellFormed(t) && c in t.columns
    ensures |r| == |t.rows| && forall i :: 0 <= i < |r| ==> r[i] == CellAt(t, i, c)
  {
    seq(|t.rows|, i requires 0 <= i < |t.rows| => CellAt(t, i, c))
  }

  /** The converted date of every cell. */
  function Days(cells: seq<Value>, parse: Value -> Stamp): (r: seq<Stamp>)
    ensures |r| == |cells| && forall i :: 0 <= i < |r| ==> r[i] == DayOf(parse, cells[i])
  {
    seq(|cells|, i requires 0 <= i < |cells| => DayOf(parse, cells[i]))
  }

  /** The position of the first cell the conversion rejects, if any. */
  function FirstUnparseable(days: seq<Stamp>): (r: Option<nat>)
    ensures r.None? <==> Unparseable !in days
    ensures r.Some? ==> r.value < |days| && days[r.value] == Unparseable
    ensures r.Some? ==> forall j :: 0 <= j < r.value ==> days[j] != Unparseable
  {
    if |days| == 0 then None
    else
      match FirstUnparseable(days[..|days| - 1])
      case Some(i) => Some(i)
      case None => if days[|days| - 1] == Unparseable then Some(|days| - 1) else None
  }

  // ---------------------------------------------------------------------------------------
  // Grouping and counting

  /** Dates strictly ascending: each date at most once, in order. */
  predicate Ascending(agg: seq<Acquisition>) {
    forall i, j :: 0 <= i < j < |agg| ==> Before(agg[i].date, agg[j].date)
  }

  /** Every group has at least one member. */
  predicate Positive(agg: seq<Acquisition>) {
    forall i :: 0 <= i < |agg| ==> agg[i].count >= 1
  }

  /** Every date of `agg` comes after `e`. */
  predicate Above(e: Date, agg: seq<Acquisition>) {
    forall i :: 0 <= i < |agg| ==> Before(e, agg[i].date)
  }

  /** The count `agg` records for date `d`, or 0 if `d` has no row. */
  function Lookup(agg: seq<Acquisition>, d: Date): nat {
    if |agg| == 0 then 0 else if agg[0].date == d then agg[0].count else Lookup(agg[1..], d)
  }

  /** The sum of the `acquisitions` column. */
  function Total(agg: seq<Acquisition>): nat {
    if |agg| == 0 then 0 else agg[0].count + Total(agg[1..])
  }

  /** How many cells fall on day `d`. */
  function CountOn(days: seq<Stamp>, d: Date): nat {
    multiset(days)[Day(d)]
  }

  /** How many cells have a date at all. */
  function Dated(days: seq<Stamp>): (r: nat)
    ensures r <= |days|
  {
    if |days| == 0 then 0 else Dated(days[..|days| - 1]) + (if days[|days| - 1].Day? then 1 else 0)
  }

  /** One more member for the group of `d`: its count goes up, or a new group is placed
      where its date belongs. */
  function Bump(agg: seq<Acquisition>, d: Date): (r: seq<Acquisition>)
    ensures |agg| <= |r| <= |agg| + 1
    ensures Lookup(r, d) >= 1
  {
    if |agg| == 0 then [Acquisition(d, 1)]
    else if agg[0].date == d then [Acquisition(d, agg[0].count + 1)] + agg[1..]
    else if Before(d, agg[0].date) then [Acquisition(d, 1)] + agg
    else
      var rest := Bump(agg[1..], d);
      assert ([agg[0]] + rest)[1..] == rest;
      [agg[0]] + rest
  }

  /** `groupby(...).count()` on the converted dates: rows without a date are dropped, the
      groups come out in ascending date order. */
  function Tally(days: seq<Stamp>): (r: seq<Acquisition>)
    ensures |r| <= Dated(days)
  {
    if |days| == 0 then []
    else
      var rest := Tally(days[..|days| - 1]);
      match days[|days| - 1]
      case Day(d) => Bump(rest, d)
      case _ => rest
  }

  /** `aggregate_cons_data(transformed_cons)`. */
  function AggregateConsData(t: Table, parse: Value -> Stamp): (r: Result<seq<Acquisition>, AggregateError>)
    requires WellFormed(t)
    ensures "created_dt" !in t.columns ==> r == Failure(Frame(MissingColumn("created_dt")))
    ensures "created_dt" in t.columns ==>
      var days := Days(Column(t, "created_dt"), parse);
      (r.Failure? <==> Unparseable in days)
      && (r.Failure? ==>
            exists i :: 0 <= i < |days| && days[i] == Unparseable
              && (forall j :: 0 <= j < i ==> days[j] != Unparseable)
              && r.error == DateParseFailure(CellAt(t, i, "created_dt")))
      && (r.Success? ==> r.value == Tally(days))
  {
    match Project(t, ["created_dt"])
    case Failure(e) => Failure(Frame(e))
    case Success(simplified) =>
      SimplifiedColumn(t, simplified);
      var days := Days(Column(simplified, "created_dt"), parse);
      match FirstUnparseable(days)
      case Some(i) => Failure(DateParseFailure(CellAt(simplified, i, "created_dt")))
      case None => Success(Tally(days))
  }

  /** Selecting the one column keeps its cells. */
  lemma SimplifiedColumn(t: Table, simplified: Table)
    requires WellFormed(t) && Project(t, ["created_dt"]) == Success(simplified)
    ensures WellFormed(simplified) && "created_dt" in t.columns && "created_dt" in simplified.columns
    ensures Column(simplified, "created_dt") == Column(t, "created_dt")
  {
    assert "created_dt" in ["created_dt"];
    assert IndexOf(simplified.columns, "created_dt") == 0;
  }

  // ---------------------------------------------------------------------------------------
  // What one more member does to the groups

  /** A date no later than every group's stays below the groups after a bump past it. */
  lemma {:induction false} BumpAbove(agg: seq<Acquisition>, d: Date, e: Date)
    requires Above(e, agg) && Before(e, d)
    ensures Above(e, Bump(agg, d))
  {
    if |agg| > 0 && agg[0].date != d && !Before(d, agg[0].date) {
      BumpAbove(agg[1..], d, e);
    }
  }

  /** Bumping keeps the dates strictly ascending. */
  lemma {:induction false} BumpAscending(agg: seq<Acquisition>, d: Date)
    requires Ascending(agg)
    ensures Ascending(Bump(agg, d))
  {
    if |agg| > 0 && agg[0].date != d && !Before(d, agg[0].date) {
      var tail := agg[1..];
      BumpAscending(tail, d);
      assert Above(agg[0].date, tail) by {
        forall i | 0 <= i < |tail| ensures Before(agg[0].date, tail[i].date) {
          assert tail[i] == agg[i + 1];
        }
      }
      BumpAbove(tail, d, agg[0].date);
      var b := Bump(agg, d);
      assert b == [agg[0]] + Bump(tail, d);
      forall i, j | 0 <= i < j < |b| ensures Before(b[i].date, b[j].date) {
        if i > 0 {
          assert b[i] == Bump(tail, d)[i - 1] && b[j] == Bump(tail, d)[j - 1];
        }
      }
    }
  }

  /** A date before every group has no count. */
  lemma {:induction false} LookupBelow(agg: seq<Acquisition>, d: Date)
    requires Above(d, agg)
    ensures Lookup(agg, d) == 0
  {
    if |agg| > 0 {
      assert Above(d, agg[1..]) by {
        forall i | 0 <= i < |agg[1..]| ensures Before(d, agg[1..][i].date) {
          assert agg[1..][i] == agg[i + 1];
        }
      }
      LookupBelow(agg[1..], d);
    }
  }

  /** Bumping `d` adds one to the count of `d` and leaves every other date's as it was. */
  lemma {:induction false} BumpLookup(agg: seq<Acquisition>, d: Date, e: Date)
    requires Ascending(agg)
    ensures Lookup(Bump(agg, d), e) == Lookup(agg, e) + (if e == d then 1 else 0)
  {
    if |agg| == 0 {
    } else if agg[0].date == d {
      assert Bump(agg, d)[1..] == agg[1..];
    } else if Before(d, agg[0].date) {
      var b := Bump(agg, d);
      assert b[1..] == agg;
      if e == d {
        assert Above(d, agg);
        LookupBelow(agg, d);
      }
    } else {
      BumpLookup(agg[1..], d, e);
      assert Bump(agg, d)[1..] == Bump(agg[1..], d);
    }
  }

  /** Bumping adds one to the total, keeps every count positive and adds at most a row. */
  lemma {:induction false} BumpTotal(agg: seq<Acquisition>, d: Date)
    requires Positive(agg)
    ensures Total(Bump(agg, d)) == Total(agg) + 1
    ensures Positive(Bump(agg, d))
    ensures |Bump(agg, d)| <= |agg| + 1
  {
    if |agg| == 0 {
    } else if agg[0].date == d {
      assert Bump(agg, d)[1..] == agg[1..];
    } else if Before(d, agg[0].date) {
      assert Bump(agg, d)[1..] == agg;
    } else {
      var tail := agg[1..];
      assert Positive(tail) by {
        forall i | 0 <= i < |tail| ensures tail[i].count >= 1 {
          assert tail[i] == agg[i + 1];
        }
      }
      BumpTotal(tail, d);
      var b := Bump(agg, d);
      assert b[1..] == Bump(tail, d);
      forall i | 0 <= i < |b| ensures b[i].count >= 1 {
        if i > 0 {
          assert b[i] == Bump(tail, d)[i - 1];
        }
      }
    }
  }

  // ---------------------------------------------------------------------------------------
  // The groups as a whole

  /** The groups of a column of dates: strictly ascending, none empty, one count per
      dated cell, no more groups than dated cells. */
  lemma {:induction false} TallyShape(days: seq<Stamp>)
    ensures Ascending(Tally(days)) && Positive(Tally(days))
    ensures Total(Tally(days)) == Dated(days)
    ensures |Tally(days)| <= Dated(days)
  {
    if |days| > 0 {
      var init := days[..|days| - 1];
      TallyShape(init);
      if days[|days| - 1].Day? {
        BumpAscending(Tally(init), days[|days| - 1].date);
        BumpTotal(Tally(init), days[|days| - 1].date);
      }
    }
  }

  /** Each date's group counts exactly the cells that fall on that date. */
  lemma {:induction false} TallyCounts(days: seq<Stamp>, d: Date)
    ensures Lookup(Tally(days), d) == CountOn(days, d)
  {
    if |days| > 0 {
      var init, last := days[..|days| - 1], days[|days| - 1];
      assert days == init + [last];
      TallyCounts(init, d);
      if last.Day? {
        TallyShape(init);
        BumpLookup(Tally(init), last.date, d);
      }
    }
  }

  /** In ascending groups each row's count is the count looked up for its date. */
  lemma {:induction false} LookupAt(agg: seq<Acquisition>, i: nat)
    requires Ascending(agg) && i < |agg|
    ensures Lookup(agg, agg[i].date) == agg[i].count
  {
    if i > 0 {
      assert agg[1..][i - 1] == agg[i];
      LookupAt(agg[1..], i - 1);
    }
  }

  /** A date with a positive count has a row. */
  lemma {:induction false} LookupFound(agg: seq<Acquisition>, d: Date)
    requires Lookup(agg, d) > 0
    ensures exists i :: 0 <= i < |agg| && agg[i].date == d
  {
    if agg[0].date != d {
      LookupFound(agg[1..], d);
      var i :| 0 <= i < |agg[1..]| && agg[1..][i].date == d;
      assert agg[i + 1].date == d;
    }
  }

  /** On success, the aggregate has one row per date some `created_dt` falls on, in strictly
      ascending order; each row counts the people created that day, so no count is zero;
      the counts add up to the people with a date, which bounds the number of rows. */
  lemma AggregateSound(t: Table, parse: Value -> Stamp)
    requires WellFormed(t) && AggregateConsData(t, parse).Success?
    ensures "created_dt" in t.columns
    ensures var agg, days := AggregateConsData(t, parse).value, Days(Column(t, "created_dt"), parse);
      && Ascending(agg) && Positive(agg)
      && (forall i :: 0 <= i < |agg| ==> agg[i].count == CountOn(days, agg[i].date))
      && (forall d :: (exists i :: 0 <= i < |agg| && agg[i].date == d) <==> CountOn(days, d) > 0)
      && Total(agg) == Dated(days) <= |t.rows|
      && |agg| <= Dated(days)
  {
    var agg, days := AggregateConsData(t, parse).value, Days(Column(t, "created_dt"), parse);
    TallyShape(days);
    forall i | 0 <= i < |agg| ensures agg[i].count == CountOn(days, agg[i].date) {
      LookupAt(agg, i);
      TallyCounts(days, agg[i].date);
    }
    forall d ensures (exists i :: 0 <= i < |agg| && agg[i].date == d) <==> CountOn(days, d) > 0 {
      TallyCounts(days, d);
      if CountOn(days, d) > 0 {
        LookupFound(agg, d);
      }
    }
  }

  /** The people table always has a `created_dt` column, so aggregating it can only stop
      on a date the conversion rejects. */
  lemma PeopleAggregate(cons: Table, email: Table, sub: Table, parse: Value -> Stamp)
    requires WellFormed(cons) && WellFormed(email) && WellFormed(sub)
    requires Transform.TransformConsData(cons, email, sub).Success?
    ensures var people := Transform.TransformConsData(cons, email, sub).value;
      WellFormed(people) && "created_dt" in people.columns
      && (AggregateConsData(people, parse).Failure? ==> AggregateConsData(people, parse).error.DateParseFailure?)
  {
    var people := Transform.TransformConsData(cons, email, sub).value;
    assert people.columns[3] == "created_dt";
  }
}
