/** The aggregate statistics over performance records: the one-row result of
    `SELECT AVG(...), COUNT(*), SUM(...), MAX(...), MIN(...)` over the records of
    a date window, where SQL yields NULL for every aggregate but COUNT when no
    row matches, followed by the loop that replaces each NULL with 0. */
module Stats {
  import opened Wrappers
  import opened Tables

  /** The keys of the statistics dict. */
  datatype Column =
    | AvgPerformance
    | TotalRecords
    | TotalTime
    | TotalBreakTime
    | TotalDelayTime
    | ActiveDays
    | BestPerformance
    | WorstPerformance

  /** The keys of `get_daily_stats`. */
  const DailyColumns: set<Column> :=
    {AvgPerformance, TotalRecords, TotalTime, TotalBreakTime, TotalDelayTime, BestPerformance, WorstPerformance}

  /** The keys of `get_weekly_stats` and `get_stats_for_date_range`. */
  const RangeColumns: set<Column> := DailyColumns + {ActiveDays}

  /** The records with `lo <= date(created_at) <= hi`, in row order. */
  function InWindow(rows: seq<Row>, lo: int, hi: int): (w: seq<Row>)
    ensures |w| <= |rows|
  {
    if rows == [] then []
    else (if lo <= rows[0].day <= hi then [rows[0]] else []) + InWindow(rows[1..], lo, hi)
  }

  /** The window keeps each record in it as often as it occurs in `rows`, so
      COUNT and SUM see every matching row exactly once. */
  lemma {:induction false} InWindowCounts(rows: seq<Row>, lo: int, hi: int)
    ensures forall r :: multiset(InWindow(rows, lo, hi))[r] == if lo <= r.day <= hi then multiset(rows)[r] else 0
    ensures forall r :: r in InWindow(rows, lo, hi) <==> r in rows && lo <= r.day <= hi
  {
    if rows != [] {
      InWindowCounts(rows[1..], lo, hi);
      assert rows == [rows[0]] + rows[1..];
    }
  }

  /** Filtering a concatenation filters each part. */
  lemma {:induction false} InWindowAppend(x: seq<Row>, y: seq<Row>, lo: int, hi: int)
    ensures InWindow(x + y, lo, hi) == InWindow(x, lo, hi) + InWindow(y, lo, hi)
  {
    if x == [] {
      assert x + y == y;
    } else {
      assert (x + y)[0] == x[0] && (x + y)[1..] == x[1..] + y;
      InWindowAppend(x[1..], y, lo, hi);
      var head := if lo <= x[0].day <= hi then [x[0]] else [];
      assert InWindow(x + y, lo, hi) == head + (InWindow(x[1..], lo, hi) + InWindow(y, lo, hi));
    }
  }

  /** The numeric columns that are summed or compared. */
  datatype Measure = Performance | ActualTime | BreakTime | DelaysTime

  function Value(r: Row, m: Measure): real {
    match m
    case Performance => r.performancePercentage
    case ActualTime => r.actualTime
    case BreakTime => r.breakTime
    case DelaysTime => r.delaysTime
  }

  /** The column `m` of the rows, in row order. */
  function Values(rows: seq<Row>, m: Measure): (xs: seq<real>)
    ensures |xs| == |rows| && forall i :: 0 <= i < |rows| ==> xs[i] == Value(rows[i], m)
  {
    seq(|rows|, i requires 0 <= i < |rows| => Value(rows[i], m))
  }

  /** SQL SUM over a non-empty column (0 for none). */
  function Sum(xs: seq<real>): real {
    if xs == [] then 0.0 else Sum(xs[..|xs| - 1]) + xs[|xs| - 1]
  }

  /** SQL MAX: the largest value, which occurs in the column. */
  function Max(xs: seq<real>): (r: real)
    requires xs != []
    ensures forall i :: 0 <= i < |xs| ==> xs[i] <= r
    ensures r in xs
  {
    if |xs| == 1 then xs[0]
    else
      var rest := Max(xs[..|xs| - 1]);
      assert forall i :: 0 <= i < |xs| - 1 ==> xs[..|xs| - 1][i] == xs[i];
      if rest >= xs[|xs| - 1] then rest else xs[|xs| - 1]
  }

  /** SQL MIN: the smallest value, which occurs in the column. */
  function Min(xs: seq<real>): (r: real)
    requires xs != []
    ensures forall i :: 0 <= i < |xs| ==> r <= xs[i]
    ensures r in xs
  {
    if |xs| == 1 then xs[0]
    else
      var rest := Min(xs[..|xs| - 1]);
      assert forall i :: 0 <= i < |xs| - 1 ==> xs[..|xs| - 1][i] == xs[i];
      if rest <= xs[|xs| - 1] then rest else xs[|xs| - 1]
  }

  /** The distinct dates of the rows (`COUNT(DISTINCT date(created_at))`). */
  function Days(rows: seq<Row>): set<int> {
    set r | r in rows :: r.day
  }

  /** One aggregate of the SELECT; None is SQL's NULL, which every aggregate
      but the two counts yields over no rows. */
  function Aggregate(rows: seq<Row>, c: Column): (r: Option<real>)
    ensures r.None? <==> rows == [] && c != TotalRecords && c != ActiveDays
    ensures c == AvgPerformance && rows != [] ==> r.value * (|rows| as real) == Sum(Values(rows, Performance))
  {
    match c
    case TotalRecords => Some(|rows| as real)
    case ActiveDays => Some(|Days(rows)| as real)
    case AvgPerformance => if rows == [] then None else Some(Sum(Values(rows, Performance)) / (|rows| as real))
    case TotalTime => if rows == [] then None else Some(Sum(Values(rows, ActualTime)))
    case TotalBreakTime => if rows == [] then None else Some(Sum(Values(rows, BreakTime)))
    case TotalDelayTime => if rows == [] then None else Some(Sum(Values(rows, DelaysTime)))
    case BestPerformance => if rows == [] then None else Some(Max(Values(rows, Performance)))
    case WorstPerformance => if rows == [] then None else Some(Min(Values(rows, Performance)))
  }

  /** The result row as a dict with the given keys. */
  function AggregateRow(rows: seq<Row>, cols: set<Column>): map<Column, Option<real>> {
    map c | c in cols :: Aggregate(rows, c)
  }

  /** `for key in result: if result[key] is None: result[key] = 0`. */
  method ZeroNulls(result: map<Column, Option<real>>) returns (r: map<Column, Option<real>>)
    ensures r.Keys == result.Keys
    ensures forall k :: k in r ==> r[k] == if result[k].None? then Some(0.0) else result[k]
  {
    r := result;
    var todo := result.Keys;
    while todo != {}
      invariant todo <= result.Keys && r.Keys == result.Keys
      invariant forall k :: k in r && k !in todo ==> r[k] == if result[k].None? then Some(0.0) else result[k]
      invariant forall k :: k in todo ==> r[k] == result[k]
      decreases todo
    {
      var k :| k in todo;
      if r[k].None? {
        r := r[k := Some(0.0)];
      }
      todo := todo - {k};
    }
  }

  /** A lower bound on every value, times the count, bounds the sum from below. */
  lemma {:induction false} SumAbove(xs: seq<real>, lo: real)
    requires forall i :: 0 <= i < |xs| ==> lo <= xs[i]
    ensures lo * (|xs| as real) <= Sum(xs)
  {
    if xs != [] {
      var init := xs[..|xs| - 1];
      SumAbove(init, lo);
      LowerStep(lo, xs[|xs| - 1], Sum(init), |init| as real);
    }
  }

  /** An upper bound on every value, times the count, bounds the sum from above. */
  lemma {:induction false} SumBelow(xs: seq<real>, hi: real)
    requires forall i :: 0 <= i < |xs| ==> xs[i] <= hi
    ensures Sum(xs) <= hi * (|xs| as real)
  {
    if xs != [] {
      var init := xs[..|xs| - 1];
      SumBelow(init, hi);
      UpperStep(hi, xs[|xs| - 1], Sum(init), |init| as real);
    }
  }

  lemma LowerStep(lo: real, v: real, s: real, n: real)
    requires lo <= v && lo * n <= s
    ensures lo * (n + 1.0) <= s + v
  {
  }

  lemma UpperStep(hi: real, v: real, s: real, n: real)
    requires v <= hi && s <= hi * n
    ensures s + v <= hi * (n + 1.0)
  {
  }

  lemma DivideBounds(lo: real, s: real, hi: real, n: real)
    requires n > 0.0 && lo * n <= s <= hi * n
    ensures lo <= s / n <= hi
  {
    assert s / n * n == s;
  }

  /** AVG lies between MIN and MAX. */
  lemma {:induction false} AvgBetweenExtremes(xs: seq<real>)
    requires xs != []
    ensures Min(xs) <= Sum(xs) / (|xs| as real) <= Max(xs)
  {
    SumAbove(xs, Min(xs));
    SumBelow(xs, Max(xs));
    DivideBounds(Min(xs), Sum(xs), Max(xs), |xs| as real);
  }

  lemma {:induction false} DaysAtMostRows(rows: seq<Row>)
    ensures |Days(rows)| <= |rows|
  {
    if rows != [] {
      var init := rows[..|rows| - 1];
      DaysAtMostRows(init);
      assert Days(rows) == Days(init) + {rows[|rows| - 1].day} by {
        forall d | d in Days(rows) ensures d in Days(init) + {rows[|rows| - 1].day} {
          var r :| r in rows && r.day == d;
          var i :| 0 <= i < |rows| && rows[i] == r;
          if i < |rows| - 1 {
            assert init[i] == r;
          }
        }
      }
    }
  }

  /** The dates lo..hi. */
  function DateRange(lo: int, hi: int): (ds: set<int>)
    ensures forall d :: d in ds <==> lo <= d <= hi
    decreases hi - lo
  {
    if lo > hi then {} else DateRange(lo, hi - 1) + {hi}
  }

  lemma {:induction false} DateRangeSize(lo: int, hi: int)
    requires lo <= hi + 1
    ensures |DateRange(lo, hi)| == hi - lo + 1
    decreases hi - lo
  {
    if lo <= hi {
      DateRangeSize(lo, hi - 1);
      assert hi !in DateRange(lo, hi - 1);
    }
  }

  /** Within a window of dates, the active days are at most the days of the
      window and at most the number of records. */
  lemma ActiveDaysBounded(rows: seq<Row>, lo: int, hi: int)
    requires lo <= hi && forall r :: r in rows ==> lo <= r.day <= hi
    ensures |Days(rows)| <= |rows|
    ensures |Days(rows)| <= hi - lo + 1
  {
    DaysAtMostRows(rows);
    DateRangeSize(lo, hi);
    assert Days(rows) <= DateRange(lo, hi);
    SubsetSize(Days(rows), DateRange(lo, hi));
  }

  lemma SubsetSize(a: set<int>, b: set<int>)
    requires a <= b
    ensures |a| <= |b|
  {
    assert b == a + (b - a);
  }

  /** The statistics dict of a stats query: the aggregates of `rows` under
      the keys `cols`, with every NULL turned into 0. */
  method Summarize(rows: seq<Row>, cols: set<Column>) returns (stats: map<Column, Option<real>>)
    ensures stats.Keys == cols
    ensures forall c :: c in stats ==> stats[c] == Some(Aggregate(rows, c).GetOr(0.0))
    ensures TotalRecords in cols ==> stats[TotalRecords] == Some(|rows| as real)
    ensures rows == [] ==> forall c :: c in stats ==> stats[c] == Some(0.0)
    ensures rows != [] && {AvgPerformance, BestPerformance, WorstPerformance} <= cols ==>
              stats[WorstPerformance].value <= stats[AvgPerformance].value <= stats[BestPerformance].value
    ensures ActiveDays in cols ==> stats[ActiveDays].value <= |rows| as real
  {
    stats := ZeroNulls(AggregateRow(rows, cols));
    if rows != [] {
      AvgBetweenExtremes(Values(rows, Performance));
    }
    DaysAtMostRows(rows);
    assert rows == [] ==> Days(rows) == {};
  }

  /** The statistics dict of a date-range query over rows that all fall in
      `lo` .. `hi`: the range keys, and at most one active day per date of the
      range. */
  method SummarizeRange(rows: seq<Row>, lo: int, hi: int) returns (stats: map<Column, Option<real>>)
    requires forall r :: r in rows ==> lo <= r.day <= hi
    ensures stats.Keys == RangeColumns
    ensures forall c :: c in stats ==> stats[c] == Some(Aggregate(rows, c).GetOr(0.0))
    ensures stats[TotalRecords] == Some(|rows| as real)
    ensures rows == [] ==> forall c :: c in stats ==> stats[c] == Some(0.0)
    ensures rows != [] ==> stats[WorstPerformance].value <= stats[AvgPerformance].value <= stats[BestPerformance].value
    ensures stats[ActiveDays].value <= stats[TotalRecords].value
    ensures lo <= hi ==> stats[ActiveDays].value <= (hi - lo + 1) as real
  {
    stats := Summarize(rows, RangeColumns);
    assert stats[ActiveDays] == Some(|Days(rows)| as real);
    if lo <= hi {
      ActiveDaysBounded(rows, lo, hi);
    }
  }
}
