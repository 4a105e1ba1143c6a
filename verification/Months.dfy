/** Month-by-month sales over a calendar the code only knows through the day-of-month of each
    date: the months are found by counting days back, and orders are sorted into them by a
    CASE over the month starts. */
module Months {

  /** A calendar: the day of the month of each day number. */
  type Calendar = int -> nat

  /** Each day is the next day of its month or the first of a new one. */
  ghost predicate CountsDays(dayOf: Calendar) {
    forall d :: CountsOn(dayOf, d)
  }

  predicate CountsOn(dayOf: Calendar, d: int) {
    dayOf(d) >= 1 && (dayOf(d + 1) == 1 || dayOf(d + 1) == dayOf(d) + 1)
  }

  lemma {:induction false} FirstOfMonth(dayOf: Calendar, d: int, back: nat)
    requires CountsDays(dayOf) && back < dayOf(d)
    ensures dayOf(d - back) == dayOf(d) - back
  {
    if back > 0 {
      FirstOfMonth(dayOf, d, back - 1);
      assert CountsOn(dayOf, d - back);
    }
  }

  /** `starts` are first days of months, newest first, with no month left out between them. */
  ghost predicate Consecutive(dayOf: Calendar, starts: seq<int>) {
    && (forall i | 0 <= i < |starts| :: dayOf(starts[i]) == 1)
    && (forall i | 0 < i < |starts| :: starts[i] < starts[i-1] && NoneBetween(dayOf, starts[i], starts[i-1]))
  }

  /** No month starts strictly between the two days. */
  ghost predicate NoneBetween(dayOf: Calendar, lo: int, hi: int) {
    forall d | lo < d < hi :: dayOf(d) != 1
  }

  /** The month of `cur` starts where counting back says, and nowhere later. */
  lemma MonthOf(dayOf: Calendar, cur: int)
    requires CountsDays(dayOf)
    ensures dayOf(cur) >= 1
    ensures var start := cur - (dayOf(cur) - 1);
            dayOf(start) == 1 && forall d | start < d <= cur :: dayOf(d) != 1
  {
    assert CountsOn(dayOf, cur);
    var start := cur - (dayOf(cur) - 1);
    FirstOfMonth(dayOf, cur, cur - start);
    forall d | start < d <= cur ensures dayOf(d) != 1 {
      FirstOfMonth(dayOf, cur, cur - d);
    }
  }

  lemma OneMoreMonth(dayOf: Calendar, starts: seq<int>, next: int)
    requires Consecutive(dayOf, starts) && dayOf(next) == 1
    requires starts != [] ==> next < starts[|starts|-1] && NoneBetween(dayOf, next, starts[|starts|-1])
    ensures Consecutive(dayOf, starts + [next])
  {
    var all := starts + [next];
    forall i | 0 < i < |all| ensures all[i] < all[i-1] && NoneBetween(dayOf, all[i], all[i-1]) {
      if i < |starts| {
        assert starts[i] < starts[i-1] && NoneBetween(dayOf, starts[i], starts[i-1]);
      }
    }
  }

  /** The starts of the `count` months up to and including today's. */
  method MonthStarts(dayOf: Calendar, today: int, count: nat) returns (out: seq<int>)
    requires CountsDays(dayOf)
    ensures |out| == count && Consecutive(dayOf, out)
    ensures count > 0 ==> out[0] <= today && forall d | out[0] < d <= today :: dayOf(d) != 1
  {
    hide CountsDays;
    out := [];
    var cur := today;
    ghost var first := today;
    for i := 0 to count
      invariant |out| == i && Consecutive(dayOf, out)
      invariant cur == if i == 0 then today else out[i-1] - 1
      invariant i > 0 ==> out[0] == first
      invariant first <= today && (i > 0 ==> forall d | first < d <= today :: dayOf(d) != 1)
    {
      hide Consecutive;
      MonthOf(dayOf, cur);
      var start := cur - (dayOf(cur) - 1);
      if i == 0 { first := start; }
      OneMoreMonth(dayOf, out, start);
      out := out + [start];
      cur := start - 1;
    }
  }

  /** `CASE WHEN d >= starts[0] THEN 0 WHEN d >= starts[1] THEN 1 ... END`, -1 for NULL. */
  function Bucket(starts: seq<int>, d: int): int {
    BucketFrom(starts, d, 0)
  }

  function BucketFrom(starts: seq<int>, d: int, i: nat): (b: int)
    requires i <= |starts|
    ensures b == -1 || i <= b < |starts|
    ensures b == -1 <==> forall j | i <= j < |starts| :: d < starts[j]
    ensures b >= 0 ==> d >= starts[b] && forall j | i <= j < b :: d < starts[j]
    decreases |starts| - i
  {
    if i == |starts| then -1 else if d >= starts[i] then i else BucketFrom(starts, d, i + 1)
  }

  /** Two days fall in one bucket exactly when no month starts between them: the CASE groups
      by calendar month, for days up to today and not before the oldest start. */
  lemma BucketIsMonth(dayOf: Calendar, starts: seq<int>, today: int, d: int, e: int)
    requires Consecutive(dayOf, starts) && starts != []
    requires forall x | starts[0] < x <= today :: dayOf(x) != 1
    requires starts[|starts|-1] <= d <= e <= today
    ensures Bucket(starts, d) >= 0 && Bucket(starts, e) >= 0
    ensures Bucket(starts, d) == Bucket(starts, e) <==> forall x | d < x <= e :: dayOf(x) != 1
  {
    var b, c := Bucket(starts, d), Bucket(starts, e);
    if b == c {
      forall x | d < x <= e ensures dayOf(x) != 1 {
        assert starts[b] < x;
        if b > 0 { assert x < starts[b-1]; }
      }
    } else {
      assert d < starts[c] <= e && dayOf(starts[c]) == 1;
    }
  }

  // ---------------------------------------------------------------- totals

  datatype Sale = Sale(day: int, total: int)

  /** What the report adds up: the number of orders, or what they come to. */
  datatype Column = Orders | Money

  function Amount(s: Sale, c: Column): int {
    if c.Orders? then 1 else s.total
  }

  /** The column over the sales in buckets `lo` to `hi` (exclusive). */
  function SumIn(sales: seq<Sale>, starts: seq<int>, c: Column, lo: int, hi: int): int {
    if sales == [] then 0
    else
      var s := sales[|sales|-1];
      SumIn(sales[..|sales|-1], starts, c, lo, hi) + if lo <= Bucket(starts, s.day) < hi then Amount(s, c) else 0
  }

  /** The column over everything sold on or after `oldest`. */
  function SumSince(sales: seq<Sale>, c: Column, oldest: int): int {
    if sales == [] then 0
    else
      var s := sales[|sales|-1];
      SumSince(sales[..|sales|-1], c, oldest) + if s.day >= oldest then Amount(s, c) else 0
  }

  lemma {:induction false} SumInSplits(sales: seq<Sale>, starts: seq<int>, c: Column, lo: int, mid: int, hi: int)
    requires lo <= mid <= hi
    ensures SumIn(sales, starts, c, lo, hi) == SumIn(sales, starts, c, lo, mid) + SumIn(sales, starts, c, mid, hi)
  {
    if sales != [] { SumInSplits(sales[..|sales|-1], starts, c, lo, mid, hi); }
  }

  lemma {:induction false} SumNowhere(sales: seq<Sale>, starts: seq<int>, c: Column, n: int)
    ensures SumIn(sales, starts, c, n, n) == 0
  {
    if sales != [] { SumNowhere(sales[..|sales|-1], starts, c, n); }
  }

  lemma {:induction false} SumInIsSince(sales: seq<Sale>, starts: seq<int>, c: Column)
    requires starts != [] && forall i | 0 < i < |starts| :: starts[i] < starts[i-1]
    ensures SumIn(sales, starts, c, 0, |starts|) == SumSince(sales, c, starts[|starts|-1])
  {
    if sales != [] {
      SumInIsSince(sales[..|sales|-1], starts, c);
      Descending(starts, |starts| - 1);
    }
  }

  lemma {:induction false} Descending(starts: seq<int>, k: nat)
    requires k < |starts| && forall i | 0 < i < |starts| :: starts[i] < starts[i-1]
    ensures forall i | 0 <= i <= k :: starts[k] <= starts[i]
  {
    if k > 0 { Descending(starts, k - 1); }
  }

  // ---------------------------------------------------------------- the report

  datatype Totals = Totals(orders: int, sales: int)

  datatype Row = Row(start: int, totals: Totals)

  function InBuckets(sales: seq<Sale>, starts: seq<int>, lo: int, hi: int): Totals {
    Totals(SumIn(sales, starts, Orders, lo, hi), SumIn(sales, starts, Money, lo, hi))
  }

  /** The result of GROUP BY bucket: no row for a bucket no sale fell in. */
  ghost predicate IsGrouped(rows: map<int, Totals>, sales: seq<Sale>, starts: seq<int>) {
    forall b | 0 <= b < |starts| ::
      InBuckets(sales, starts, b, b + 1) == if b in rows then rows[b] else Totals(0, 0)
  }

  /** The report over the grouped rows: one row per month, oldest first, months without sales
      included.  Each row is its month's sales, and the totals under the table are everything
      sold since the oldest month start: no sale is counted twice or lost between months. */
  method MonthlySales(dayOf: Calendar, sales: seq<Sale>, starts: seq<int>, rows: map<int, Totals>)
    returns (out: seq<Row>, totals: Totals)
    requires Consecutive(dayOf, starts) && starts != [] && IsGrouped(rows, sales, starts)
    ensures |out| == |starts|
    ensures forall i | 0 <= i < |starts| ::
              out[|starts| - 1 - i] == Row(starts[i], InBuckets(sales, starts, i, i + 1))
    ensures var oldest := starts[|starts|-1];
            totals == Totals(SumSince(sales, Orders, oldest), SumSince(sales, Money, oldest))
  {
    hide SumIn, Bucket, Consecutive;
    out := [];
    var n := |starts|;
    var i := n;
    while i > 0
      invariant 0 <= i <= n && |out| == n - i
      invariant forall j | i <= j < n :: out[n - 1 - j] == Row(starts[j], InBuckets(sales, starts, j, j + 1))
    {
      i := i - 1;
      var hit := if i in rows then rows[i] else Totals(0, 0);
      out := out + [Row(starts[i], hit)];
    }
    var orders, money := 0, 0;
    SumNowhere(sales, starts, Orders, n);
    SumNowhere(sales, starts, Money, n);
    for k := 0 to |out|
      invariant Totals(orders, money) == InBuckets(sales, starts, n - k, n)
    {
      assert out[k] == Row(starts[n - 1 - k], InBuckets(sales, starts, n - 1 - k, n - k));
      SumInSplits(sales, starts, Orders, n - 1 - k, n - k, n);
      SumInSplits(sales, starts, Money, n - 1 - k, n - k, n);
      orders, money := orders + out[k].totals.orders, money + out[k].totals.sales;
    }
    NewestFirst(dayOf, starts);
    SumInIsSince(sales, starts, Orders);
    SumInIsSince(sales, starts, Money);
    totals := Totals(orders, money);
  }

  lemma NewestFirst(dayOf: Calendar, starts: seq<int>)
    requires Consecutive(dayOf, starts)
    ensures forall i | 0 < i < |starts| :: starts[i] < starts[i-1]
  {
  }
}
