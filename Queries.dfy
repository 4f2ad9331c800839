/** The read-only views of the ledger (deposits, payments, a date range, a
    vendor), the order the ledger sorts into, and the date ranges of the
    report presets. */
module Queries {
  import opened Text
  import opened Calendar
  import opened Transactions

  // ------------------------------------------------------------ filters

  /** The test each view applies to a transaction. */
  datatype Criterion =
    | Deposits                         // displayDeposits: amount > 0
    | Payments                         // displayPayments: amount < 0
    | DateRange(start: Date, end: Date) // filterTransactionsByDate
    | VendorIs(name: string)           // filterTransactionsByVendor

  /** (date.isAfter(start) || date.isEqual(start)) && (date.isBefore(end) || date.isEqual(end)). */
  predicate InDateRange(start: Date, end: Date, d: Date)
  {
    (DateBefore(start, d) || d == start) && (DateBefore(d, end) || d == end)
  }

  predicate Matches(c: Criterion, r: Record)
  {
    match c
    case Deposits => r.amount > 0
    case Payments => r.amount < 0
    case DateRange(start, end) => InDateRange(start, end, r.date)
    case VendorIs(name) => EqualsIgnoreCase(r.vendor, name)
  }

  /** The transactions a view shows, in list order. */
  function Select(c: Criterion, rs: seq<Record>): (out: seq<Record>)
    ensures |out| <= |rs|
  {
    if rs == [] then []
    else (if Matches(c, rs[0]) then [rs[0]] else []) + Select(c, rs[1..])
  }

  /** A view shows a transaction exactly when the list holds it and it
      passes the test. */
  lemma {:induction false} SelectMembers(c: Criterion, rs: seq<Record>)
    ensures forall r :: r in Select(c, rs) <==> r in rs && Matches(c, r)
    decreases |rs|
  {
    if rs != [] {
      SelectMembers(c, rs[1..]);
      assert rs == [rs[0]] + rs[1..];
    }
  }

  /** Views keep list order: the view of a concatenation is the
      concatenation of the views. */
  lemma {:induction false} SelectAppend(c: Criterion, a: seq<Record>, b: seq<Record>)
    ensures Select(c, a + b) == Select(c, a) + Select(c, b)
    decreases |a|
  {
    if a == [] {
      assert a + b == b;
    } else {
      var h := if Matches(c, a[0]) then [a[0]] else [];
      assert (a + b)[0] == a[0] && (a + b)[1..] == a[1..] + b;
      SelectAppend(c, a[1..], b);
      assert Select(c, a + b) == h + Select(c, a[1..] + b);
      assert Select(c, a) == h + Select(c, a[1..]);
    }
  }

  /** A list whose every transaction matches is shown whole; one with no
      match shows nothing. */
  lemma {:induction false} SelectAllOrNone(c: Criterion, rs: seq<Record>)
    ensures (forall i :: 0 <= i < |rs| ==> Matches(c, rs[i])) ==> Select(c, rs) == rs
    ensures (forall i :: 0 <= i < |rs| ==> !Matches(c, rs[i])) <==> Select(c, rs) == []
    decreases |rs|
  {
    if rs != [] {
      SelectAllOrNone(c, rs[1..]);
      var h := if Matches(c, rs[0]) then [rs[0]] else [];
      assert Select(c, rs) == h + Select(c, rs[1..]);
      assert forall i :: 1 <= i < |rs| ==> rs[1..][i - 1] == rs[i];
      assert rs == [rs[0]] + rs[1..];
    }
  }

  function ZeroCount(rs: seq<Record>): (n: nat)
    ensures n <= |rs|
  {
    if rs == [] then 0 else (if rs[0].amount == 0 then 1 else 0) + ZeroCount(rs[1..])
  }

  /** Deposits and payments split the list: every transaction is in exactly
      one of the two views unless its amount is zero, which is in neither. */
  lemma {:induction false} SignViewsPartition(rs: seq<Record>)
    ensures |Select(Deposits, rs)| + |Select(Payments, rs)| + ZeroCount(rs) == |rs|
    ensures forall r :: r in rs && r.amount == 0 ==> r !in Select(Deposits, rs) && r !in Select(Payments, rs)
    decreases |rs|
  {
    if rs != [] {
      SignViewsPartition(rs[1..]);
    }
    SelectMembers(Deposits, rs);
    SelectMembers(Payments, rs);
  }

  /** Both ends of the range are included. */
  lemma DateRangeInclusive(start: Date, end: Date, d: Date)
    ensures InDateRange(start, end, d) <==> DateAtMost(start, d) && DateAtMost(d, end)
    ensures InDateRange(start, end, start) <==> DateAtMost(start, end)
    ensures InDateRange(start, end, end) <==> DateAtMost(start, end)
  {
  }

  /** The vendor test is equality after folding case: a vendor of another
      length, such as a part of the query, never matches. */
  lemma VendorMatch(name: string, r: Record)
    ensures Matches(VendorIs(name), r) <==> LowerText(r.vendor) == LowerText(name)
    ensures |r.vendor| != |name| ==> !Matches(VendorIs(name), r)
  {
    EqualsIgnoreCaseIsLowerEquality(r.vendor, name);
  }

  // ------------------------------------------------------------ the ledger order

  function Key(r: Record): DateTime
  {
    DateTime(r.date, r.time)
  }

  /** a comes before b under Comparator.comparing(getDate).thenComparing(getTime). */
  predicate Older(a: Record, b: Record)
  {
    DateTimeBefore(Key(a), Key(b))
  }

  /** Sorted by the reversed comparator: no transaction is followed by a newer one. */
  predicate NewestFirst(rs: seq<Record>)
  {
    forall i, j :: 0 <= i < j < |rs| ==> !Older(rs[i], rs[j])
  }

  /** Places x in front of the first transaction that is not newer than it. */
  function Insert(x: Record, s: seq<Record>): (r: seq<Record>)
    ensures multiset(r) == multiset{x} + multiset(s)
  {
    if s == [] then [x]
    else
      assert s == [s[0]] + s[1..];
      if Older(x, s[0]) then [s[0]] + Insert(x, s[1..]) else [x] + s
  }

  /** List.sort with the reversed comparator, a stable merge sort; any stable
      sort gives the same list, which this insertion sort computes. */
  function SortNewestFirst(rs: seq<Record>): (r: seq<Record>)
    ensures NewestFirst(r) && multiset(r) == multiset(rs)
  {
    if rs == [] then []
    else
      var t := SortNewestFirst(rs[1..]);
      InsertSorted(rs[0], t);
      assert rs == [rs[0]] + rs[1..];
      Insert(rs[0], t)
  }

  lemma {:induction false} InsertSorted(x: Record, s: seq<Record>)
    requires NewestFirst(s)
    ensures NewestFirst(Insert(x, s))
    decreases |s|
  {
    if s == [] {
    } else if Older(x, s[0]) {
      var t := Insert(x, s[1..]);
      TailSorted(s);
      InsertSorted(x, s[1..]);
      forall e | e in t ensures !Older(s[0], e) {
        assert e in multiset(t);
        if e != x {
          var i :| 0 <= i < |s[1..]| && s[1..][i] == e;
          assert s[i + 1] == e;
        }
      }
      ConsSorted(s[0], t);
    } else {
      forall e | e in s ensures !Older(x, e) {
        var i :| 0 <= i < |s| && s[i] == e;
        assert i == 0 || !Older(s[0], s[i]);
      }
      ConsSorted(x, s);
    }
  }

  lemma TailSorted(s: seq<Record>)
    requires s != [] && NewestFirst(s)
    ensures NewestFirst(s[1..])
  {
    forall i, j | 0 <= i < j < |s[1..]| ensures !Older(s[1..][i], s[1..][j]) {
      assert s[1..][i] == s[i + 1] && s[1..][j] == s[j + 1];
    }
  }

  lemma ConsSorted(x: Record, t: seq<Record>)
    requires NewestFirst(t) && forall e :: e in t ==> !Older(x, e)
    ensures NewestFirst([x] + t)
  {
    var u := [x] + t;
    forall i, j | 0 <= i < j < |u| ensures !Older(u[i], u[j]) {
      assert u[j] == t[j - 1] && t[j - 1] in t;
      if i > 0 {
        assert u[i] == t[i - 1];
      }
    }
  }

  /** The transactions with date and time k, in list order. */
  function WithKey(k: DateTime, rs: seq<Record>): seq<Record>
  {
    if rs == [] then []
    else (if Key(rs[0]) == k then [rs[0]] else []) + WithKey(k, rs[1..])
  }

  lemma {:induction false} InsertWithKey(k: DateTime, x: Record, s: seq<Record>)
    ensures WithKey(k, Insert(x, s)) == (if Key(x) == k then [x] else []) + WithKey(k, s)
    decreases |s|
  {
    if s == [] {
      WithKeyCons(k, x, []);
    } else if Older(x, s[0]) {
      InsertWithKey(k, x, s[1..]);
      assert Insert(x, s) == [s[0]] + Insert(x, s[1..]);
      assert s == [s[0]] + s[1..];
      SkipOlder(k, x, s[0], Insert(x, s[1..]), s[1..]);
    } else {
      WithKeyCons(k, x, s);
    }
  }

  /** Passing over a newer transaction does not change the group of x's key. */
  lemma SkipOlder(k: DateTime, x: Record, y: Record, t: seq<Record>, u: seq<Record>)
    requires Older(x, y)
    requires WithKey(k, t) == (if Key(x) == k then [x] else []) + WithKey(k, u)
    ensures WithKey(k, [y] + t) == (if Key(x) == k then [x] else []) + WithKey(k, [y] + u)
  {
    WithKeyCons(k, y, t);
    WithKeyCons(k, y, u);
    assert Key(x) != Key(y);
  }

  lemma WithKeyCons(k: DateTime, x: Record, s: seq<Record>)
    ensures WithKey(k, [x] + s) == (if Key(x) == k then [x] else []) + WithKey(k, s)
  {
    assert ([x] + s)[0] == x && ([x] + s)[1..] == s;
  }

  /** The sort is stable: transactions with equal date and time keep their
      relative order. */
  lemma {:induction false} SortStable(k: DateTime, rs: seq<Record>)
    ensures WithKey(k, SortNewestFirst(rs)) == WithKey(k, rs)
    decreases |rs|
  {
    if rs != [] {
      SortStable(k, rs[1..]);
      InsertWithKey(k, rs[0], SortNewestFirst(rs[1..]));
    }
  }

  /** A list already newest first is left as it is; so sorting twice changes
      nothing. */
  lemma {:induction false} SortSorted(rs: seq<Record>)
    requires NewestFirst(rs)
    ensures SortNewestFirst(rs) == rs
    decreases |rs|
  {
    if rs != [] {
      TailSorted(rs);
      SortSorted(rs[1..]);
      if |rs| > 1 {
        assert !Older(rs[0], rs[1]);
        assert rs[1..] == [rs[1]] + rs[2..];
      }
    }
  }

  lemma SortIdempotent(rs: seq<Record>)
    ensures SortNewestFirst(SortNewestFirst(rs)) == SortNewestFirst(rs)
  {
    SortSorted(SortNewestFirst(rs));
  }

  // ------------------------------------------------------------ report presets

  /** 1) Month To Date: withDayOfMonth(1) through today. */
  function MonthToDate(today: Date): Criterion
    requires ValidDate(today)
  {
    DateRange(FirstDayOfMonth(today), today)
  }

  /** 2) Previous Month: the first through the last day of minusMonths(1). */
  function PreviousMonth(today: Date): Criterion
    requires ValidDate(today)
  {
    var p := MinusMonths(today, 1);
    DateRange(FirstDayOfMonth(p), LastDayOfMonth(p))
  }

  /** 3) Year To Date: withDayOfYear(1) through today. */
  function YearToDate(today: Date): Criterion
  {
    DateRange(FirstDayOfYear(today), today)
  }

  /** 4) Previous Year: the first through the last day of minusYears(1). */
  function PreviousYear(today: Date): Criterion
    requires ValidDate(today)
  {
    var p := MinusYears(today, 1);
    DateRange(FirstDayOfYear(p), LastDayOfYear(p))
  }

  lemma MonthToDateRange(today: Date, d: Date)
    requires ValidDate(today) && ValidDate(d)
    ensures var c := MonthToDate(today);
      InDateRange(c.start, c.end, d) <==> d.year == today.year && d.month == today.month && d.day <= today.day
  {
  }

  /** The previous month is the calendar month before today's (December of
      the year before in January), every day of it. */
  lemma PreviousMonthRange(today: Date, d: Date)
    requires ValidDate(today) && ValidDate(d)
    ensures var c := PreviousMonth(today);
      InDateRange(c.start, c.end, d) <==> d.year * 12 + d.month == today.year * 12 + today.month - 1
  {
    var p := MinusMonths(today, 1);
    if d.year * 12 + d.month == p.year * 12 + p.month {
      assert d.year == p.year && d.month == p.month;
    }
  }

  lemma YearToDateRange(today: Date, d: Date)
    requires ValidDate(today) && ValidDate(d)
    ensures var c := YearToDate(today);
      InDateRange(c.start, c.end, d) <==> d.year == today.year && DateAtMost(d, today)
  {
  }

  lemma PreviousYearRange(today: Date, d: Date)
    requires ValidDate(today) && ValidDate(d)
    ensures var c := PreviousYear(today);
      InDateRange(c.start, c.end, d) <==> d.year == today.year - 1
  {
    var c := PreviousYear(today);
    assert c.end.month == 12 && c.end.day == 31;
  }

  /** Every preset starts no later than it ends. */
  lemma PresetsOrdered(today: Date)
    requires ValidDate(today)
    ensures DateAtMost(MonthToDate(today).start, MonthToDate(today).end)
    ensures DateAtMost(PreviousMonth(today).start, PreviousMonth(today).end)
    ensures DateAtMost(YearToDate(today).start, YearToDate(today).end)
    ensures DateAtMost(PreviousYear(today).start, PreviousYear(today).end)
  {
  }

  /** In a leap year the previous month of March ends on February 29, and in
      January it is December of the year before. */
  lemma PreviousMonthExamples()
    ensures PreviousMonth(Date(2024, 3, 31)) == DateRange(Date(2024, 2, 1), Date(2024, 2, 29))
    ensures PreviousMonth(Date(2023, 3, 15)) == DateRange(Date(2023, 2, 1), Date(2023, 2, 28))
    ensures PreviousMonth(Date(2024, 1, 15)) == DateRange(Date(2023, 12, 1), Date(2023, 12, 31))
  {
  }
}
